/** JavaScript's `String.prototype.split` and `Array.prototype.join` for a
    one-character separator, on strings modelled as sequences of characters. */
module JsText {

  /** `s.split(sep)`: the maximal separator-free pieces of `s`, in order.
      Like JavaScript, the empty string gives one empty piece, and adjacent,
      leading or trailing separators give empty pieces. */
  function Split(s: string, sep: char): (parts: seq<string>)
    ensures |parts| >= 1
    ensures forall i :: 0 <= i < |parts| ==> sep !in parts[i]
    decreases |s|
  {
    if |s| == 0 then [""]
    else if s[0] == sep then [""] + Split(s[1..], sep)
    else
      var rest := Split(s[1..], sep);
      [[s[0]] + rest[0]] + rest[1..]
  }

  /** The total length of a list of pieces. */
  function TotalLength(parts: seq<string>): nat
  {
    if |parts| == 0 then 0 else |parts[0]| + TotalLength(parts[1..])
  }

  /** `parts.join(sep)`: the pieces with one separator between neighbours,
      so the result starts with the first piece and is as long as the pieces
      together plus one separator fewer than there are pieces. */
  function Join(parts: seq<string>, sep: char): (r: string)
    ensures |parts| >= 1 ==> |parts[0]| <= |r| && r[..|parts[0]|] == parts[0]
    ensures |parts| >= 1 ==> |r| == TotalLength(parts) + |parts| - 1
  {
    if |parts| == 0 then ""
    else if |parts| == 1 then parts[0]
    else parts[0] + [sep] + Join(parts[1..], sep)
  }

  /** Joining the pieces of a split gives back the string that was split. */
  lemma {:induction false} JoinSplit(s: string, sep: char)
    ensures Join(Split(s, sep), sep) == s
    decreases |s|
  {
    if |s| == 0 {
    } else if s[0] == sep {
      JoinSplit(s[1..], sep);
      var rest := Split(s[1..], sep);
      assert Split(s, sep) == [""] + rest;
      assert ([""] + rest)[1..] == rest;
    } else {
      JoinSplit(s[1..], sep);
      var rest := Split(s[1..], sep);
      var parts := [[s[0]] + rest[0]] + rest[1..];
      assert Split(s, sep) == parts;
      assert parts[1..] == rest[1..];
      if |rest| == 1 {
        assert Join(rest, sep) == rest[0];
      } else {
        assert Join(rest, sep) == rest[0] + [sep] + Join(rest[1..], sep);
      }
      assert s == [s[0]] + s[1..];
    }
  }

  /** A string without the separator is split into itself alone. */
  lemma {:induction false} SplitNoSep(s: string, sep: char)
    requires sep !in s
    ensures Split(s, sep) == [s]
    decreases |s|
  {
    if |s| > 0 {
      assert s[0] != sep;
      assert sep !in s[1..];
      SplitNoSep(s[1..], sep);
      assert [s[0]] + s[1..] == s;
    }
  }

  /** One step of Split, for a string given as its first character and the
      rest: a separator starts a new piece, any other character extends the
      first piece of the rest. */
  lemma SplitCons(c: char, t: string, sep: char)
    ensures c == sep ==> Split([c] + t, sep) == [""] + Split(t, sep)
    ensures c != sep ==> Split([c] + t, sep) == [[c] + Split(t, sep)[0]] + Split(t, sep)[1..]
  {
    assert ([c] + t)[0] == c && ([c] + t)[1..] == t;
  }

  /** The inductive step of SplitAtSep when the new first character is the
      separator: if `u` splits into the pieces of `tail` followed by `more`,
      then `[sep] + u` splits into the pieces of `[sep] + tail` followed by
      `more`. */
  lemma SeparatorStep(tail: string, u: string, more: seq<string>, sep: char)
    requires Split(u, sep) == Split(tail, sep) + more
    ensures Split([sep] + u, sep) == Split([sep] + tail, sep) + more
  {
    PrependAppend("", Split(tail, sep), more);
    SplitCons(sep, u, sep);
    SplitCons(sep, tail, sep);
  }

  /** Sequence facts for the two steps. */
  lemma PrependAppend(x: string, ys: seq<string>, more: seq<string>)
    ensures [x] + (ys + more) == ([x] + ys) + more
  {
  }


  lemma ConsAppend(x: string, ys: seq<string>, more: seq<string>)
    requires |ys| >= 1
    ensures (ys + more)[0] == ys[0] && (ys + more)[1..] == ys[1..] + more
    ensures [x] + (ys[1..] + more) == ([x] + ys[1..]) + more
  {
  }

  /** The same step when the new first character is not the separator. */
  lemma CharacterStep(c: char, tail: string, u: string, more: seq<string>, sep: char)
    requires c != sep
    requires Split(u, sep) == Split(tail, sep) + more
    ensures Split([c] + u, sep) == Split([c] + tail, sep) + more
  {
    var restA := Split(tail, sep);
    ConsAppend([c] + restA[0], restA, more);
    SplitCons(c, u, sep);
    SplitCons(c, tail, sep);
  }

  /** Splitting at a separator splits the two sides independently. */
  lemma {:induction false} SplitAtSep(a: string, b: string, sep: char)
    ensures Split(a + [sep] + b, sep) == Split(a, sep) + Split(b, sep)
    decreases |a|
  {
    if |a| == 0 {
      assert a + [sep] + b == [sep] + b;
      SplitCons(sep, b, sep);
    } else {
      assert a == [a[0]] + a[1..];
      assert a + [sep] + b == [a[0]] + (a[1..] + [sep] + b);
      SplitAtSep(a[1..], b, sep);
      if a[0] == sep {
        SeparatorStep(a[1..], a[1..] + [sep] + b, Split(b, sep), sep);
      } else {
        CharacterStep(a[0], a[1..], a[1..] + [sep] + b, Split(b, sep), sep);
      }
    }
  }

  /** Splitting a join of separator-free pieces gives back the pieces:
      the converse of JoinSplit. */
  lemma {:induction false} SplitJoin(parts: seq<string>, sep: char)
    requires |parts| >= 1
    requires forall i :: 0 <= i < |parts| ==> sep !in parts[i]
    ensures Split(Join(parts, sep), sep) == parts
    decreases |parts|
  {
    if |parts| == 1 {
      SplitNoSep(parts[0], sep);
    } else {
      SplitNoSep(parts[0], sep);
      SplitJoin(parts[1..], sep);
      SplitAtSep(parts[0], Join(parts[1..], sep), sep);
      assert [parts[0]] + parts[1..] == parts;
    }
  }
}

/** The version arithmetic of the extension's build script: the patch bump
    applied to development builds, the `v` prefix stripped from git tags, and
    the choice of which version a development build bumps. */
module BuildVersion {
  import opened Wrappers
  import opened JsText
  import opened Decimal

  /** JavaScript's `Number.MAX_SAFE_INTEGER`, 2^53 - 1: up to this value,
      `Number(p) + 1` is computed exactly in double precision. */
  const MaxSafeInteger: nat := 9007199254740991

  /** The dot-separated components of a version string. */
  function Parts(version: string): seq<string>
  {
    Split(version, '.')
  }

  /** Versions whose bump this model describes: fewer than three components,
      or a patch component of decimal digits only (possibly none, which
      `Number` reads as 0) whose value is a safe integer. */
  predicate Bumpable(version: string)
  {
    var parts := Parts(version);
    |parts| < 3 || (IsDigits(parts[2]) && DigitsToNat(parts[2]) <= MaxSafeInteger)
  }

  /** `after` is a patch bump of `before`. With three or more components it
      has the same number of components, all of them the same except the
      third, which is the canonical numeral of the old patch value plus one.
      With fewer, it is `before` followed by ".1". */
  predicate IsPatchBump(before: string, after: string)
  {
    var was := Parts(before);
    var now := Parts(after);
    if |was| >= 3 then
      && |now| == |was|
      && (forall i :: 0 <= i < |was| && i != 2 ==> now[i] == was[i])
      && IsDigits(was[2])
      && IsCanonical(now[2])
      && DigitsToNat(now[2]) == DigitsToNat(was[2]) + 1
    else
      after == before + ".1"
  }

  /** `incrementVersion`: split on '.', overwrite the patch component with
      its value plus one and join again; or append ".1" when there are
      fewer than three components. */
  method IncrementVersion(version: string) returns (r: string)
    requires Bumpable(version)
    ensures IsPatchBump(version, r)
  {
    var parts := Split(version, '.');
    if |parts| >= 3 {
      var was := parts;
      parts := parts[2 := NatToDigits(DigitsToNat(parts[2]) + 1)];
      assert forall i :: 0 <= i < |parts| ==> '.' !in parts[i] by {
        forall i | 0 <= i < |parts| ensures '.' !in parts[i] {
          if i == 2 {
            var p := parts[2];
            assert forall k :: 0 <= k < |p| ==> p[k] != '.';
          } else {
            assert parts[i] == was[i];
          }
        }
      }
      SplitJoin(parts, '.');
      r := Join(parts, '.');
      return;
    }
    r := version + ".1";
  }

  /** A bump is determined by the version it bumps: the declarative
      description above admits exactly one result. */
  lemma BumpIsUnique(before: string, r1: string, r2: string)
    requires IsPatchBump(before, r1) && IsPatchBump(before, r2)
    ensures r1 == r2
  {
    var was := Parts(before);
    if |was| >= 3 {
      var p1, p2 := Parts(r1), Parts(r2);
      CanonicalRoundTrip(p1[2]);
      CanonicalRoundTrip(p2[2]);
      assert p1 == p2 by {
        assert |p1| == |p2|;
        forall i | 0 <= i < |p1| ensures p1[i] == p2[i] {
          if i != 2 {
            assert p1[i] == was[i] && p2[i] == was[i];
          }
        }
      }
      JoinSplit(r1, '.');
      JoinSplit(r2, '.');
    }
  }

  /** The new patch component is what `String(Number(patch) + 1)` writes:
      the canonical numeral of the old value plus one, so leading zeros
      collapse ("07" gives "8") and an empty patch gives "1". */
  lemma BumpPatchIsRendering(before: string, after: string)
    requires |Parts(before)| >= 3 && IsPatchBump(before, after)
    ensures Parts(after)[2] == NatToDigits(DigitsToNat(Parts(before)[2]) + 1)
  {
    CanonicalRoundTrip(Parts(after)[2]);
  }

  /** A bump always produces a different version. */
  lemma BumpChangesVersion(before: string, after: string)
    requires IsPatchBump(before, after)
    ensures after != before
  {
    var was := Parts(before);
    if |was| >= 3 {
      assert Parts(after)[2] != was[2];
    } else {
      assert |after| == |before| + 2;
    }
  }

  /** With fewer than three components the old version is a prefix of the
      new one, which has exactly one more component, "1". */
  lemma ShortBumpAppendsComponent(before: string, after: string)
    requires |Parts(before)| < 3 && IsPatchBump(before, after)
    ensures after[..|before|] == before
    ensures Parts(after) == Parts(before) + ["1"]
  {
    assert after == before + ['.'] + "1";
    SplitAtSep(before, "1", '.');
    SplitNoSep("1", '.');
  }

  /** The example of the build script's comment: "0.3.7" becomes "0.3.8". */
  lemma BumpExample()
    ensures IsPatchBump("0.3.7", "0.3.8")
  {
    PartsOf037();
    PartsOf038();
    assert DigitsToNat("7") == 7 by { assert "7"[..0] == []; }
    assert DigitsToNat("8") == 8 by { assert "8"[..0] == []; }
  }

  /** A bump that carries into a new digit: "0.3.9" becomes "0.3.10". This
      also fixes the digit order: the most significant digit comes first. */
  lemma BumpExampleCarry()
    ensures IsPatchBump("0.3.9", "0.3.10")
  {
    PartsOf039();
    PartsOf0310();
    assert DigitsToNat("9") == 9 by { assert "9"[..0] == []; }
    assert DigitsToNat("10") == 10 by {
      assert "10"[..1] == "1";
      assert "1"[..0] == [];
    }
  }

  // The lemmas below only compute the components of the literal versions
  // used by the examples; each one is the same proof for a different
  // literal.

  lemma PartsOf037()
    ensures Parts("0.3.7") == ["0", "3", "7"]
  {
    var parts: seq<string> := ["0", "3", "7"];
    SplitJoin(parts, '.');
    assert Join(["3", "7"], '.') == "3.7";
    assert Join(parts, '.') == "0.3.7";
  }

  lemma PartsOf038()
    ensures Parts("0.3.8") == ["0", "3", "8"]
  {
    var parts: seq<string> := ["0", "3", "8"];
    SplitJoin(parts, '.');
    assert Join(["3", "8"], '.') == "3.8";
    assert Join(parts, '.') == "0.3.8";
  }

  lemma PartsOf039()
    ensures Parts("0.3.9") == ["0", "3", "9"]
  {
    var parts: seq<string> := ["0", "3", "9"];
    SplitJoin(parts, '.');
    assert Join(["3", "9"], '.') == "3.9";
    assert Join(parts, '.') == "0.3.9";
  }

  lemma PartsOf0310()
    ensures Parts("0.3.10") == ["0", "3", "10"]
  {
    var parts: seq<string> := ["0", "3", "10"];
    SplitJoin(parts, '.');
    assert Join(["3", "10"], '.') == "3.10";
    assert Join(parts, '.') == "0.3.10";
  }

  lemma PartsOf1234()
    ensures Parts("1.2.3.4") == ["1", "2", "3", "4"]
  {
    var parts: seq<string> := ["1", "2", "3", "4"];
    SplitJoin(parts, '.');
    assert Join(["3", "4"], '.') == "3.4";
    assert Join(["2", "3", "4"], '.') == "2.3.4";
    assert Join(parts, '.') == "1.2.3.4";
  }

  lemma PartsOf1244()
    ensures Parts("1.2.4.4") == ["1", "2", "4", "4"]
  {
    var parts: seq<string> := ["1", "2", "4", "4"];
    SplitJoin(parts, '.');
    assert Join(["4", "4"], '.') == "4.4";
    assert Join(["2", "4", "4"], '.') == "2.4.4";
    assert Join(parts, '.') == "1.2.4.4";
  }

  /** A fourth component is carried along unchanged: "1.2.3.4" becomes
      "1.2.4.4". */
  lemma BumpExampleFourParts()
    ensures IsPatchBump("1.2.3.4", "1.2.4.4")
  {
    PartsOf1234();
    PartsOf1244();
    assert DigitsToNat("3") == 3 by { assert "3"[..0] == []; }
    assert DigitsToNat("4") == 4 by { assert "4"[..0] == []; }
  }

  /** The version `getGitVersion` derives from a tag: one leading 'v'
      removed if there is one. */
  function StripTagPrefix(tag: string): (r: string)
    ensures tag == r || tag == ['v'] + r
    ensures r == tag <==> !(|tag| > 0 && tag[0] == 'v')
  {
    if |tag| > 0 && tag[0] == 'v' then tag[1..] else tag
  }

  /** "v0.3.7" and "0.3.7" name the same version. */
  lemma StripTagPrefixAgrees(version: string)
    requires !(|version| > 0 && version[0] == 'v')
    ensures StripTagPrefix(['v'] + version) == version
    ensures StripTagPrefix(version) == version
  {
    assert (['v'] + version)[1..] == version;
  }

  /** `getGitVersion`: the latest tag, as reported by `git describe`, with
      its prefix stripped; `None` when the git command fails. */
  function GitVersion(describedTag: Option<string>): (r: Option<string>)
    ensures r.Some? <==> describedTag.Some?
    ensures r.Some? ==> describedTag.value == r.value || describedTag.value == ['v'] + r.value
    ensures r.Some? ==> (r.value == describedTag.value <==> !(|describedTag.value| > 0 && describedTag.value[0] == 'v'))
  {
    match describedTag
    case None => None
    case Some(tag) => Some(StripTagPrefix(tag))
  }

  /** `if (gitVersion)` in JavaScript: `null` and the empty string are both
      false. */
  predicate IsUsable(gitVersion: Option<string>)
  {
    gitVersion.Some? && gitVersion.value != ""
  }

  /** A development build uses the git version exactly when `git describe`
      succeeded with a tag that is neither empty nor the bare prefix "v". */
  lemma GitTagIsUsed(describedTag: Option<string>)
    ensures IsUsable(GitVersion(describedTag)) <==>
      describedTag.Some? && describedTag.value != "" && describedTag.value != "v"
  {
    if describedTag.Some? && |describedTag.value| > 0 && describedTag.value[0] == 'v' {
      assert describedTag.value == "v" <==> |describedTag.value| == 1;
    }
  }

  /** The version a development build bumps: the git version when it is
      usable, otherwise the manifest's own. */
  function BumpSource(gitVersion: Option<string>, manifestVersion: string): (r: string)
    ensures IsUsable(gitVersion) ==> r == gitVersion.value
    ensures r == manifestVersion || Some(r) == gitVersion
    ensures r == "" ==> r == manifestVersion
    ensures gitVersion.None? ==> r == manifestVersion
  {
    if IsUsable(gitVersion) then gitVersion.value else manifestVersion
  }

  /** The manifest version written for one browser target. Outside
      development it is left as it is; in development it becomes the bump of
      the git version, or of the manifest version when git gives none. */
  method SelectManifestVersion(isDev: bool, gitVersion: Option<string>, manifestVersion: string)
    returns (version: string)
    requires isDev ==> Bumpable(BumpSource(gitVersion, manifestVersion))
    ensures !isDev ==> version == manifestVersion
    ensures isDev && IsUsable(gitVersion) ==> IsPatchBump(gitVersion.value, version)
    ensures isDev && !IsUsable(gitVersion) ==> IsPatchBump(manifestVersion, version)
    ensures isDev ==> version != BumpSource(gitVersion, manifestVersion)
  {
    version := manifestVersion;
    if isDev {
      if IsUsable(gitVersion) {
        version := IncrementVersion(gitVersion.value);
      } else {
        version := IncrementVersion(manifestVersion);
      }
      BumpChangesVersion(BumpSource(gitVersion, manifestVersion), version);
    }
  }
}

# Build-script version arithmetic of lee-su-threads

The lee-su-threads browser extension packages its bundles with an esbuild
script, `esbuild.config.js`. For each browser target it writes a
`manifest.json`. In a development build (watch mode or
`NODE_ENV=development`), the manifest's version is replaced by a patch bump:

- `getGitVersion` reads the latest git tag and strips one leading `v`.
- `incrementVersion` splits a version on `.`. With three or more
  components it replaces the third (the patch) by its numeric value plus
  one. Otherwise it appends `.1`.
- `copyStaticFilesForBrowser` bumps the git version when there is one, and
  the manifest's own version otherwise. Outside development the manifest
  version is left alone.

This project models that arithmetic in Dafny and proves its properties.

- `wrappers.dfy` (`Wrappers`): `Option`, which stands for JavaScript's `null`.
- `js_text.dfy` (`JsText`): JavaScript's `split` and `join` for a
  one-character separator, with both round trips proved.
- `decimal.dfy` (`Decimal`): digit strings read as numbers and the
  canonical numeral of a natural number, with both round trips proved.
  Reading a digit-only string agrees with `Number` as long as its value is
  at most 2^53; above that `Number` rounds. The canonical numeral agrees
  with `String` for a safe integer; from 10^21 on `String` switches to
  exponent form. The script itself does reach that range (it turns
  "1.2.999999999999999999999" into "1.2.1e+21"); `Bumpable` keeps the model
  out of it.
- `build_version.dfy` (`BuildVersion`):
  - `IncrementVersion` is a method that updates a local `parts` sequence as
    the script does.
  - It is proved against `IsPatchBump`, a declarative description of a bump.
  - `IsPatchBump` itself states that every component except the patch is
    kept. Lemmas show that it fixes the result uniquely, always changes the
    version, renders the new patch as `String` would, and in the short case
    appends one component `1`. Example lemmas cover "0.3.7", a carry
    ("0.3.9" to "0.3.10") and a fourth component.
  - The tag strip and the dev-build selection are modelled too.

Details worth knowing:

- The condition `if (gitVersion)` is JavaScript truthiness, so the empty
  string counts as "no git version". A tag that is exactly `v` strips to
  `""`, and the build then falls back to the manifest version.
  `IsUsable` models this.
- `Number("")` is `0`, so an empty patch component (as in `"1.2."`) is
  bumped to `1`. The model's digit strings include the empty string for
  this reason.
- Leading zeros collapse: the patch `"07"` becomes `"8"`.

## Model

| member | source | states |
|---|---|---|
| JsText.Split | esbuild.config.js:23 | `version.split('.')` always yields at least one component, and no component contains the separator |
| JsText.JoinSplit | esbuild.config.js:23-26 | joining the components of a split with the same separator gives back the original string |
| JsText.SplitJoin | esbuild.config.js:26 | splitting a join of separator-free components gives back exactly those components |
| JsText.SplitAtSep | esbuild.config.js:29 | splitting `a + "." + b` gives the components of `a` followed by the components of `b` |
| JsText.SplitNoSep | esbuild.config.js:23 | a string without a dot is a single component |
| JsText.Join | esbuild.config.js:26 | `parts.join('.')` starts with the first part and is as long as all parts together plus one separator fewer than there are parts; JoinSplit and SplitJoin make it the inverse of Split |
| Decimal.DigitsToNat | esbuild.config.js:25 | `Number(patch)` on a digit-only patch (exact up to 2^53; the empty string is 0); a numeral of k digits is worth less than 10^k, and NatToDigits and CanonicalRoundTrip make it the inverse of the canonical rendering |
| Decimal.NatToDigits | esbuild.config.js:25 | `String(n)` for a safe integer `n` is a canonical numeral (digits only, no leading zero) that reads back as `n` |
| Decimal.CanonicalRoundTrip | esbuild.config.js:25 | a canonical numeral is the rendering of its own value, so the numeral of a value is unique |
| BuildVersion.IncrementVersion | esbuild.config.js:22-30 | with three or more components the result has the same number of components, all unchanged except the third, which is the canonical numeral of the old patch value plus one; with fewer components the result is the input followed by ".1" |
| BuildVersion.BumpIsUnique | esbuild.config.js:22-30 | that description of a bump admits exactly one result for each input |
| BuildVersion.BumpPatchIsRendering | esbuild.config.js:25 | the new patch component is `String(Number(patch) + 1)` for a digit-only patch |
| BuildVersion.BumpChangesVersion | esbuild.config.js:24-29 | a bump always yields a version different from its input, in both branches |
| BuildVersion.ShortBumpAppendsComponent | esbuild.config.js:28-29 | with fewer than three components the input is a prefix of the result, which has the input's components plus one more, "1" |
| BuildVersion.BumpExample | esbuild.config.js:21 | "0.3.7" bumps to "0.3.8" |
| BuildVersion.BumpExampleCarry | esbuild.config.js:25 | "0.3.9" bumps to "0.3.10": the value is incremented, not the last digit |
| BuildVersion.BumpExampleFourParts | esbuild.config.js:24-26 | "1.2.3.4" bumps to "1.2.4.4": components after the patch are kept |
| BuildVersion.StripTagPrefix | esbuild.config.js:14 | the result is the tag itself or the tag without one leading 'v', and it is the tag itself exactly when the tag does not start with 'v' |
| BuildVersion.StripTagPrefixAgrees | esbuild.config.js:11-14 | "v" + version and the bare version (one not starting with 'v') both strip to that version |
| BuildVersion.GitVersion | esbuild.config.js:9-18 | a version exists exactly when `git describe` succeeded; it is the tag with one leading 'v' removed when the tag starts with 'v', and the tag itself otherwise |
| BuildVersion.IsUsable | esbuild.config.js:79 | the truthiness test `if (gitVersion)` on a string-or-null; GitTagIsUsed shows it holds of getGitVersion's result exactly when git succeeded with a tag neither "" nor "v" |
| BuildVersion.GitTagIsUsed | esbuild.config.js:78-79 | the git version is used exactly when `git describe` succeeded with a tag that is neither empty nor the bare "v" |
| BuildVersion.BumpSource | esbuild.config.js:79-83 | the version a development build bumps is the git version whenever it is truthy, otherwise the manifest version; it is always one of the two, the manifest version whenever git gives none, and an empty version is never taken from git |
| BuildVersion.SelectManifestVersion | esbuild.config.js:77-85 | outside development the manifest version is unchanged; in development it is the bump of the git version when that is non-empty, otherwise the bump of the manifest version, and it always differs from the version it bumped |

## Left out

- BuildVersion.IncrementVersion: its domain is restricted by `Bumpable`. A patch component of three or more must be decimal digits only, with a value of at most `Number.MAX_SAFE_INTEGER`. `Number()` on other text gives floating-point results this model does not describe: `NaN` (giving the patch "NaN"), whitespace trimming, signs, hexadecimal and exponent forms, `Infinity`, and rounding above 2^53.
- BuildVersion.SelectManifestVersion: it carries the same restriction, for the one version that a development build bumps.
- The manifest is modelled only by its `version` string. The `JSON.parse` and `JSON.stringify` round trip (esbuild.config.js:74, 87) is I/O. The assignment to `manifest.version` is modelled as the returned version. A manifest whose `version` is not a string is not modelled.
- Running `git describe` and trimming its output (esbuild.config.js:12) are external. The trimmed tag, or its absence when the command fails, is an input of `GitVersion`. The warning printed on failure is not modelled.
- `isDev` is an input. Reading `process.argv` and `process.env` (esbuild.config.js:5-6) is not modelled.
- In the script, git is only asked for a tag in development builds. `SelectManifestVersion` takes the git version as an input and ignores it outside development.
- Not modelled because they are I/O or tool invocation with no version logic: esbuild bundling and watch mode (esbuild.config.js:109-135), and file copying and directory creation (esbuild.config.js:54-69 and esbuild.config.js:87-98).
- popup.js is not part of this model. It is UI glue: storage reads, HTML rendering, export, clipboard and toasts.
- `parseProfileResponse` (lib/profileParser.js) is the extension's response parser and lies outside this model of the build script's version arithmetic. test/profileParser.test.js exercises only that parser.

# Vault UI changelog link helper, in Dafny

This project models `changelogUrlFor`, the helper of Vault's web UI that turns
a Vault version string such as `1.5.0+prem` into a link to that version's
heading in Vault's changelog, and proves what the helper promises. The helper:

1. keeps the text before the first `+` (enterprise builds carry `+prem`, `+ent`);
2. deletes every `.`;
3. if the result compares, as a string, at or above `143`, returns the base URL
   `https://www.github.com/hashicorp/vault/blob/main/CHANGELOG.md#` followed by
   `v` and the result; otherwise returns the bare base URL;
4. if `split` throws because the argument is not a string, returns the bare base URL.

Files:

- `js_string.dfy` (module `JsString`): the JavaScript string operations the
  helper is built from (`split` with a one-character separator, `join`, and
  the string comparison `<` / `>=`). `split(sep)[0]`, `split(c).join('')` and
  `<` each have an independent reference definition and lemmas connecting the
  two (the order is a strict total order equal to the textbook lexicographic
  order); `join` has no reference definition of its own and is tied to
  `split` by round trips in both directions.
- `changelog_url.dfy` (module `ChangelogUrl`): the helper as written, with its
  argument as the datatype `Version = Str(s) | NotAString`, and the
  properties of its result.
- `version_order.dfy` (module `VersionOrder`): the finding below: the string
  comparison misorders two-digit minor and patch versions; a corrected helper
  compares the dotted components as numbers.

The model is pure (functions and lemmas), like the helper, which is one chain
of calls followed by a comparison and a concatenation.

## Model

| member | source | states |
|---|---|---|
| `JsString.Split` | ui/lib/core/addon/helpers/changelog-url-for.js:21-23 | `split` always yields at least one piece and no piece contains the separator |
| `JsString.SplitHead` | ui/lib/core/addon/helpers/changelog-url-for.js:21-22 | `s.split(sep)[0]` equals the longest prefix of `s` without `sep` |
| `JsString.Join` | ui/lib/core/addon/helpers/changelog-url-for.js:23-24 | `parts.join(sep)`: the pieces in order with `sep` between neighbours; its inverse is `split`, by `JsString.JoinSplitRoundTrip` and `JsString.SplitJoinRoundTrip` |
| `JsString.TakeUntil` | ui/lib/core/addon/helpers/changelog-url-for.js:22 | the kept text is a prefix of the input, holds no `sep`, and is followed by `sep` unless it is the whole input |
| `JsString.TakeUntilFree` | ui/lib/core/addon/helpers/changelog-url-for.js:22 | a string without `sep` is kept whole |
| `JsString.TakeUntilIgnoresTail` | ui/lib/core/addon/helpers/changelog-url-for.js:20-22 | whatever follows the first `sep` does not change the kept text |
| `JsString.Without` | ui/lib/core/addon/helpers/changelog-url-for.js:23-24 | the result holds no deleted character and is no longer than the input |
| `JsString.JoinSplitEmpty` | ui/lib/core/addon/helpers/changelog-url-for.js:23-24 | `s.split(c).join('')` is `s` with every `c` deleted |
| `JsString.JoinSplitRoundTrip` | ui/lib/core/addon/helpers/changelog-url-for.js:23-24 | joining the pieces with the separator gives back the string |
| `JsString.SplitJoinRoundTrip` | ui/lib/core/addon/helpers/changelog-url-for.js:23-24 | splitting a join of separator-free pieces gives back the pieces |
| `JsString.SplitFree` | ui/lib/core/addon/helpers/changelog-url-for.js:23 | a string without the separator splits into itself alone |
| `JsString.SplitAfterPiece` | ui/lib/core/addon/helpers/changelog-url-for.js:23 | a separator after a separator-free piece ends exactly that piece |
| `JsString.WithoutFree` | ui/lib/core/addon/helpers/changelog-url-for.js:23-24 | deleting a character that does not occur changes nothing |
| `JsString.WithoutAppend` | ui/lib/core/addon/helpers/changelog-url-for.js:23-24 | deleting a character distributes over concatenation |
| `JsString.WithoutKeeps` | ui/lib/core/addon/helpers/changelog-url-for.js:23-24 | every character that remains comes from the input |
| `JsString.Less` | ui/lib/core/addon/helpers/changelog-url-for.js:27 | JavaScript `a < b` on strings: a proper prefix is below the longer string, otherwise the first differing character decides; equal to the lexicographic order by `JsString.LessIsLexLess` |
| `JsString.AtLeast` | ui/lib/core/addon/helpers/changelog-url-for.js:27 | JavaScript `a >= b` on strings, the negation of `a < b`; characterised by `JsString.AtLeastIsEqualOrAbove` |
| `JsString.LessProperPrefix` | ui/lib/core/addon/helpers/changelog-url-for.js:27 | a proper prefix is below the longer string |
| `JsString.LessIrreflexive` | ui/lib/core/addon/helpers/changelog-url-for.js:27 | no string is below itself, so `n >= n` holds |
| `JsString.LessTransitive` | ui/lib/core/addon/helpers/changelog-url-for.js:27 | the string order is transitive |
| `JsString.LessAsymmetric` | ui/lib/core/addon/helpers/changelog-url-for.js:27 | if `a < b` then not `b < a` |
| `JsString.AtLeastIsEqualOrAbove` | ui/lib/core/addon/helpers/changelog-url-for.js:27 | `a >= b` holds exactly when `a` equals `b` or `b < a` |
| `JsString.LessTotal` | ui/lib/core/addon/helpers/changelog-url-for.js:27 | any two different strings are ordered one way or the other |
| `JsString.LessIsLexLess` | ui/lib/core/addon/helpers/changelog-url-for.js:27 | `a < b` holds exactly when `a` is a proper prefix of `b` or has the smaller character at the first difference |
| `ChangelogUrl.Version` | ui/lib/core/addon/helpers/changelog-url-for.js:16-34 | the helper's argument: a string, or a value without `split`, for which the call throws and the `catch` path is taken |
| `ChangelogUrl.VersionNumber` | ui/lib/core/addon/helpers/changelog-url-for.js:20-24 | the normalised version number is the text before the first `+` with every `.` deleted |
| `ChangelogUrl.VersionNumberIsStripped` | ui/lib/core/addon/helpers/changelog-url-for.js:20-24 | the normalised version number contains no `+` and no `.` |
| `ChangelogUrl.ChangelogUrlFor` | ui/lib/core/addon/helpers/changelog-url-for.js:16-35 | every result, on every path, begins with the base URL; a non-string argument gives exactly the base URL |
| `ChangelogUrl.LinkIffAtLeastThreshold` | ui/lib/core/addon/helpers/changelog-url-for.js:27-29 | something is appended to the base URL if and only if the normalised version number is `>= '143'` as a string |
| `ChangelogUrl.LinkForRecentVersion` | ui/lib/core/addon/helpers/changelog-url-for.js:27-28 | at or above `143` the result is exactly base URL, `v`, version number |
| `ChangelogUrl.BareUrlForOlderVersion` | ui/lib/core/addon/helpers/changelog-url-for.js:27-34 | below `143` the result is exactly the base URL |
| `ChangelogUrl.SuffixIgnored` | ui/lib/core/addon/helpers/changelog-url-for.js:20-22 | `X+anything` and `X` (with no `+` in `X`) give the same URL |
| `ChangelogUrl.AnchorIsHeadingWithoutPeriods` | ui/lib/core/addon/helpers/changelog-url-for.js:5-14 | a linked plain version `x` points at the heading text `v` + `x` with its periods removed |
| `ChangelogUrl.ThreeComponentVersion` | ui/lib/core/addon/helpers/changelog-url-for.js:21-24 | a version `x.y.z` normalises to `xyz` |
| `ChangelogUrl.StringComparisonExample` | ui/lib/core/addon/helpers/changelog-url-for.js:27 | `1.10.0` normalises to `1100`, which sorts below `143`, so it gets the bare URL |
| `ChangelogUrl.DocumentedExample150` | ui/lib/core/addon/helpers/changelog-url-for.js:7 | `1.5.0` links to `v150` |
| `ChangelogUrl.DocumentedExample145` | ui/lib/core/addon/helpers/changelog-url-for.js:10 | `1.4.5` links to `v145` |
| `ChangelogUrl.EnterpriseExample` | ui/lib/core/addon/helpers/changelog-url-for.js:20-22 | `1.5.0+prem` links to `v150`, like `1.5.0` |
| `ChangelogUrl.FirstLinkedExample` | ui/lib/core/addon/helpers/changelog-url-for.js:5 | `1.4.3`, the first version with predictable headings, links to `v143` |
| `ChangelogUrl.LastUnlinkedExample` | ui/lib/core/addon/helpers/changelog-url-for.js:27-34 | `1.4.2` gets the bare URL |
| `VersionOrder.DottedSplits` | ui/lib/core/addon/helpers/changelog-url-for.js:21-23 | a version `x.y.z` splits into the pieces `x`, `y`, `z` |
| `VersionOrder.IntendedChangelogUrlFor` | ui/lib/core/addon/helpers/changelog-url-for.js:16-35 | the corrected helper: every result begins with the base URL; a non-string argument gives exactly the base URL |
| `VersionOrder.IntendedLinksFromMinimum` | ui/lib/core/addon/helpers/changelog-url-for.js:5 | with the corrected comparison, `a.b.c` links to its heading exactly when it is 1.4.3 or later as numbers |
| `VersionOrder.SeqLessMinimum` | ui/lib/core/addon/helpers/changelog-url-for.js:5 | comparing `[a, b, c]` with 1.4.3 component by component as numbers says exactly that `a.b.c` is below 1.4.3 |
| `VersionOrder.AsWrittenMissesTwoDigitMinors` | ui/lib/core/addon/helpers/changelog-url-for.js:27 | for every `1.b.c` with `10 <= b < 43`, the version is 1.4.3 or later, yet the helper as written returns the bare URL |
| `VersionOrder.AsWrittenMissesTwoDigitPatches` | ui/lib/core/addon/helpers/changelog-url-for.js:27 | for every `1.4.p` with `10 <= p < 30`, the version is 1.4.3 or later, yet the helper as written returns the bare URL |
| `VersionOrder.MinorTenExample` | ui/lib/core/addon/helpers/changelog-url-for.js:27-28 | for `1.10.0` the helper as written gives the bare URL and the corrected one links to `v1100` |
| `VersionOrder.PatchTenExample` | ui/lib/core/addon/helpers/changelog-url-for.js:27-28 | for `1.4.10` the helper as written gives the bare URL and the corrected one links to `v1410` |
| `VersionOrder.AgreeOnSingleDigits` | ui/lib/core/addon/helpers/changelog-url-for.js:27 | with single-digit components the two comparisons, and so the two helpers, agree |

## Findings

| source | as written | input that shows it | evidently intended | confidence | as-written member | corrected member |
|---|---|---|---|---|---|---|
| ui/lib/core/addon/helpers/changelog-url-for.js:27 | `versionNumber >= '143'` compares the digit strings, so `1100` (for 1.10.0) and `1410` (for 1.4.10) sort below `143`; every 1.b.c with 10 <= b <= 42 and every 1.4.p with 10 <= p <= 29 is missed | `1.10.0` or `1.4.10`: the result is the bare URL | versions from 1.4.3 on, compared as numbers, get a link (the comment at lines 3-5) | high; not executed | `VersionOrder.AsWrittenMissesTwoDigitMinors` (with `VersionOrder.AsWrittenMissesTwoDigitPatches`, `ChangelogUrl.ChangelogUrlFor`, `VersionOrder.MinorTenExample`, `VersionOrder.PatchTenExample`) | `VersionOrder.IntendedChangelogUrlFor` (property `VersionOrder.IntendedLinksFromMinimum`) |

The helper's own properties above are proved about the code as written
(`ChangelogUrl.ChangelogUrlFor`); the corrected helper sits beside it. It
compares the dotted components with 1.4.3 as numbers whenever every component
is a run of digits, and keeps the string comparison otherwise (for instance
for a pre-release such as `1.5.0-beta1`). The anchor it builds is unchanged.
With single-digit components both helpers agree (`VersionOrder.AgreeOnSingleDigits`).

## Left out

- The `console.log` calls in the `catch` block (changelog-url-for.js:31-32) and the Ember `helper(...)` registration (line 37): logging and framework wiring, with no effect on the returned URL.
- `ChangelogUrl.Version`: an argument that is not a string but has a `split` method of its own is not modelled; `NotAString` stands for values without `split` (`undefined`, `null`, numbers, plain objects), for which `.split` throws.
- `JsString.Less`: compares Unicode scalar values, where JavaScript compares UTF-16 code units. The two orders differ only between characters above U+FFFF and characters from U+E000 to U+FFFF. JavaScript strings can also hold unpaired surrogates (U+D800 to U+DFFF), which a Dafny `char` cannot represent, so such strings are outside the model; the helper always compares against `143`, which is ASCII, so its outcome is the same under both orders (this remark is not proved).
- `JsString.Split`: only one-character separators are modelled, the only kind the helper uses.
- `plugins/database/redshift/redshift_test.go` as a whole: an acceptance test that needs `VAULT_ACC=1` and a live Redshift cluster (lines 47-49) and checks credentials by opening database connections (lines 401-417). The database plugin it exercises (`Init`, `CreateUser`, `RenewUser`, `RevokeUser`, `RotateRootCredentials`) is not part of this model, so its statement templating, connection management and credential lifecycle are not modelled.
- `redshiftEnv` (redshift_test.go:26-44): reads environment variables. Its checks at lines 33 and 37 test `url` again instead of `user` and `password`, a slip in the test fixture.
- `createTestPGUser` (redshift_test.go:503-537): a database transaction helper around foreign calls.
- The SQL template constants (redshift_test.go:419-498) and the commented-out tests (lines 220-263, 333-400): inert data and dead code.

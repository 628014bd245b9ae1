/**
 The UI helper `changelogUrlFor`: it turns a Vault version string such as
 `1.5.0+prem` into a link to that version's heading in Vault's changelog.
 Everything before the first `+` is kept, every `.` is deleted, and if the
 resulting text compares, as a string, at or above `143` the link points at
 the anchor `v` followed by that text; otherwise the bare changelog URL is
 returned.  A value that is not a string makes `split` throw, and the helper
 then also returns the bare URL.
 */
module ChangelogUrl {
  import opened JsString

  /** The changelog location every result starts with. */
  const BaseUrl: string := "https://www.github.com/hashicorp/vault/blob/main/CHANGELOG.md#"

  /** The normalised version number from which on headings are predictable
      (Vault 1.4.3). */
  const FirstPredictable: string := "143"

  /** The helper's argument: a string, or any other value (`undefined`,
      a number, ...) that has no `split` method. */
  datatype Version = Str(s: string) | NotAString

  /** `version.split('+')[0].split('.').join('')`. */
  function VersionNumber(version: string): (n: string)
    ensures n == Without(TakeUntil(version, '+'), '.')
  {
    SplitHead(version, '+');
    JoinSplitEmpty(Split(version, '+')[0], '.');
    Join(Split(Split(version, '+')[0], '.'), "")
  }

  /** The helper.  The `NotAString` case is the `catch` branch: the error is
      logged and control falls through to `return url`. */
  function ChangelogUrlFor(version: Version): (url: string)
    ensures BaseUrl <= url
    ensures version.NotAString? ==> url == BaseUrl
  {
    match version
    case NotAString => BaseUrl
    case Str(s) =>
      var n := VersionNumber(s);
      if AtLeast(n, FirstPredictable) then BaseUrl + "v" + n else BaseUrl
  }

  /** The anchor is made of the text before the first `+`, without periods,
      so it never holds a `+` or a `.`. */
  lemma VersionNumberIsStripped(version: string)
    ensures '+' !in VersionNumber(version) && '.' !in VersionNumber(version)
  {
    var p := TakeUntil(version, '+');
    assert '+' !in p;
    forall i | 0 <= i < |Without(p, '.')| ensures Without(p, '.')[i] != '+' {
      WithoutKeeps(p, '.', i);
    }
  }

  /** A link is produced exactly when the normalised version number is at
      least `143` as a string. */
  lemma LinkIffAtLeastThreshold(s: string)
    ensures ChangelogUrlFor(Str(s)) != BaseUrl
        <==> AtLeast(Without(TakeUntil(s, '+'), '.'), FirstPredictable)
  {
  }

  /** At or above the threshold the result is the base URL, `v`, and the
      normalised version number. */
  lemma LinkForRecentVersion(s: string)
    requires AtLeast(Without(TakeUntil(s, '+'), '.'), FirstPredictable)
    ensures ChangelogUrlFor(Str(s)) == BaseUrl + "v" + Without(TakeUntil(s, '+'), '.')
  {
  }

  /** Below the threshold nothing is appended to the base URL. */
  lemma BareUrlForOlderVersion(s: string)
    requires Less(Without(TakeUntil(s, '+'), '.'), FirstPredictable)
    ensures ChangelogUrlFor(Str(s)) == BaseUrl
  {
  }

  /** An enterprise suffix such as `+prem` does not change the result. */
  lemma SuffixIgnored(x: string, suffix: string)
    requires '+' !in x
    ensures ChangelogUrlFor(Str(x + "+" + suffix)) == ChangelogUrlFor(Str(x))
  {
    TakeUntilIgnoresTail(x, '+', suffix);
    TakeUntilFree(x, '+');
  }

  /** For a plain version `x` that gets a link, the anchor is the changelog
      heading text `v` + `x` with its periods removed, as GitHub forms it. */
  lemma AnchorIsHeadingWithoutPeriods(x: string)
    requires '+' !in x
    requires AtLeast(Without(x, '.'), FirstPredictable)
    ensures ChangelogUrlFor(Str(x)) == BaseUrl + Without("v" + x, '.')
  {
    TakeUntilFree(x, '+');
    WithoutAppend("v", x, '.');
    assert Without("v", '.') == "v";
    assert "v" + Without(x, '.') == Without("v" + x, '.');
    forall prefix: string ensures prefix + "v" + Without(x, '.') == prefix + ("v" + Without(x, '.')) {
    }
  }

  /** A version `x.y.z` (given with its components) whose components hold no `+` and no `.` normalises
      to the concatenation `xyz` of its components. */
  lemma {:induction false} ThreeComponentVersion(version: string, x: string, y: string, z: string)
    requires '+' !in x && '+' !in y && '+' !in z
    requires '.' !in x && '.' !in y && '.' !in z
    requires version == x + "." + y + "." + z
    ensures VersionNumber(version) == x + y + z
  {
    var dot: string := ".";
    TakeUntilFree(x + dot + y + dot + z, '+');
    assert Without(dot, '.') == [];
    WithoutFree(x, '.');
    WithoutFree(y, '.');
    WithoutFree(z, '.');
    WithoutAppend(x, dot, '.');
    assert Without(x + dot, '.') == x;
    WithoutAppend(x + dot, y, '.');
    assert Without(x + dot + y, '.') == x + y;
    WithoutAppend(x + dot + y, dot, '.');
    assert Without(x + dot + y + dot, '.') == x + y;
    WithoutAppend(x + dot + y + dot, z, '.');
  }

  // The examples below take the version as a parameter fixed by their
  // requires clause, so that the verifier reasons about the helper through
  // the lemmas above instead of evaluating `split` and `join` on a literal,
  // which exhausts its budget.

  /** The comparison is on strings: Vault 1.10.0 normalises to `1100`, and
      `1100` sorts below `143`, so it gets no link. */
  lemma StringComparisonExample(version: string)
    requires version == "1.10.0"
    ensures ChangelogUrlFor(Str(version)) == BaseUrl
  {
    ThreeComponentVersion(version, "1", "10", "0");
    assert "1" + "10" + "0" == "1100";
    assert Less("1100", FirstPredictable);
  }

  /** The first heading of the documentation comment: `1.5.0` links to
      `v150`. */
  lemma DocumentedExample150(version: string)
    requires version == "1.5.0"
    ensures ChangelogUrlFor(Str(version)) == BaseUrl + "v150"
  {
    ThreeComponentVersion(version, "1", "5", "0");
    assert "1" + "5" + "0" == "150";
    assert AtLeast("150", FirstPredictable);
  }

  /** The second heading of the documentation comment: `1.4.5` links to
      `v145`. */
  lemma DocumentedExample145(version: string)
    requires version == "1.4.5"
    ensures ChangelogUrlFor(Str(version)) == BaseUrl + "v145"
  {
    ThreeComponentVersion(version, "1", "4", "5");
    assert "1" + "4" + "5" == "145";
    assert AtLeast("145", FirstPredictable);
  }

  /** The enterprise build `1.5.0+prem` links to the same heading as `1.5.0`. */
  lemma EnterpriseExample(version: string)
    requires version == "1.5.0+prem"
    ensures ChangelogUrlFor(Str(version)) == BaseUrl + "v150"
  {
    var plain, suffix := version[..5], version[6..];
    assert plain == "1.5.0";
    assert version == plain + "+" + suffix;
    DocumentedExample150(plain);
    SuffixIgnored(plain, suffix);
  }

  /** Vault 1.4.3 is the first version that gets a link. */
  lemma FirstLinkedExample(version: string)
    requires version == "1.4.3"
    ensures ChangelogUrlFor(Str(version)) == BaseUrl + "v143"
  {
    ThreeComponentVersion(version, "1", "4", "3");
    assert "1" + "4" + "3" == "143";
    LessIrreflexive(FirstPredictable);
  }

  /** Vault 1.4.2 is below the threshold and gets the bare URL. */
  lemma LastUnlinkedExample(version: string)
    requires version == "1.4.2"
    ensures ChangelogUrlFor(Str(version)) == BaseUrl
  {
    ThreeComponentVersion(version, "1", "4", "2");
    assert "1" + "4" + "2" == "142";
    assert Less("142", FirstPredictable);
  }
}

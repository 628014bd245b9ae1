/**
 The changelog helper decides whether a version has a predictable heading
 by comparing the normalised version number with `143` as a STRING.  The
 documentation comment states the intent: versions from 1.4.3 on.  As
 strings, `1100` < `143`, so every 1.b.c with a two-digit minor version from
 10 to 42, and every 1.4.p with a two-digit patch version from 10 to 29,
 sorts below `143`: Vault 1.10.0 through 1.42.x, and 1.4.10 through 1.4.29,
 get no link.

 This module states that discrepancy for all such versions, and gives a
 corrected helper that compares the dotted components as numbers, with the
 intended property proved about it.
 */
module VersionOrder {
  import opened JsString
  import opened ChangelogUrl

  /** The decimal value of a digit character. */
  function DigitValue(ch: char): (d: nat)
    requires '0' <= ch <= '9'
  {
    ch as int - '0' as int
  }

  /** The digit character for a value below ten. */
  function Digit(d: nat): (ch: char)
    requires d < 10
    ensures '0' <= ch <= '9' && DigitValue(ch) == d
  {
    ('0' as int + d) as char
  }

  predicate AllDigits(s: string)
  {
    forall i :: 0 <= i < |s| ==> '0' <= s[i] <= '9'
  }

  /** A version component such as `10`: a non-empty run of decimal digits. */
  predicate IsNumeral(s: string)
  {
    |s| > 0 && AllDigits(s)
  }

  /** The number a run of decimal digits denotes. */
  function NumeralValue(s: string): (n: nat)
    requires AllDigits(s)
  {
    if s == [] then 0
    else NumeralValue(s[..|s| - 1]) * 10 + DigitValue(s[|s| - 1])
  }

  /** The decimal representation of `n`, without leading zeros. */
  function Decimal(n: nat): (s: string)
    ensures IsNumeral(s) && NumeralValue(s) == n
    ensures '+' !in s && '.' !in s
  {
    if n < 10 then [Digit(n)]
    else
      var prefix := Decimal(n / 10);
      var s := prefix + [Digit(n % 10)];
      assert s[..|s| - 1] == prefix;
      s
  }

  predicate AllNumerals(parts: seq<string>)
  {
    forall i :: 0 <= i < |parts| ==> IsNumeral(parts[i])
  }

  /** The numeric value of each dotted component. */
  function Components(parts: seq<string>): (ns: seq<nat>)
    requires AllNumerals(parts)
    ensures |ns| == |parts|
    ensures forall i :: 0 <= i < |parts| ==> ns[i] == NumeralValue(parts[i])
  {
    if parts == [] then [] else [NumeralValue(parts[0])] + Components(parts[1..])
  }

  /** Lexicographic order on component sequences, compared as numbers; a
      version with fewer components is below its extensions. */
  predicate SeqLess(a: seq<nat>, b: seq<nat>)
  {
    if b == [] then false
    else if a == [] then true
    else if a[0] != b[0] then a[0] < b[0]
    else SeqLess(a[1..], b[1..])
  }

  /** The first version whose changelog heading is predictable. */
  const MinimumVersion: seq<nat> := [1, 4, 3]

  /** `major.minor.patch` is 1.4.3 or later, as Vault orders its releases. */
  predicate AtLeastMinimum(major: nat, minor: nat, patch: nat)
  {
    major > 1 || (major == 1 && (minor > 4 || (minor == 4 && patch >= 3)))
  }

  /** The helper with the comparison the documentation comment intends: when
      every dotted component is a number, the components are compared with
      1.4.3 as numbers; otherwise the string comparison is kept.  The anchor
      is formed as before. */
  function IntendedChangelogUrlFor(version: Version): (url: string)
    ensures BaseUrl <= url
    ensures version.NotAString? ==> url == BaseUrl
  {
    match version
    case NotAString => BaseUrl
    case Str(s) =>
      var parts := Split(Split(s, '+')[0], '.');
      var n := VersionNumber(s);
      var recent :=
        if AllNumerals(parts) then !SeqLess(Components(parts), MinimumVersion)
        else AtLeast(n, FirstPredictable);
      if recent then BaseUrl + "v" + n else BaseUrl
  }

  /** The dotted rendering of `major.minor.patch`. */
  function Render(major: nat, minor: nat, patch: nat): (version: string)
  {
    Decimal(major) + "." + Decimal(minor) + "." + Decimal(patch)
  }

  /** The pieces the helper splits a dotted version `x.y.z` into. */
  lemma {:induction false} DottedSplits(x: string, y: string, z: string)
    requires '+' !in x && '+' !in y && '+' !in z
    requires '.' !in x && '.' !in y && '.' !in z
    ensures Split(Split(x + "." + y + "." + z, '+')[0], '.') == [x, y, z]
  {
    var w := y + "." + z;
    var v := x + "." + w;
    assert x + "." + y + "." + z == v;
    SplitHead(v, '+');
    TakeUntilFree(v, '+');
    SplitAfterPiece(x, '.', w);
    SplitAfterPiece(y, '.', z);
    SplitFree(z, '.');
  }

  lemma RenderSplits(a: nat, b: nat, c: nat)
    ensures Split(Split(Render(a, b, c), '+')[0], '.') == [Decimal(a), Decimal(b), Decimal(c)]
    ensures VersionNumber(Render(a, b, c)) == Decimal(a) + Decimal(b) + Decimal(c)
  {
    DottedSplits(Decimal(a), Decimal(b), Decimal(c));
    ThreeComponentVersion(Render(a, b, c), Decimal(a), Decimal(b), Decimal(c));
  }

  lemma SeqLessMinimum(a: nat, b: nat, c: nat)
    ensures SeqLess([a, b, c], MinimumVersion) <==> !AtLeastMinimum(a, b, c)
  {
    var v: seq<nat> := [a, b, c];
    assert v[1..] == [b, c] && v[1..][1..] == [c] && v[1..][1..][1..] == [];
    var m := MinimumVersion;
    assert m[1..] == [4, 3] && m[1..][1..] == [3] && m[1..][1..][1..] == [];
    assert SeqLess(v[1..][1..], m[1..][1..]) <==> c < 3;
    assert SeqLess(v[1..], m[1..]) <==> b < 4 || (b == 4 && c < 3);
  }

  /** Three numerals have the three numbers they denote as components. */
  lemma NumeralComponents(x: string, y: string, z: string)
    requires IsNumeral(x) && IsNumeral(y) && IsNumeral(z)
    ensures AllNumerals([x, y, z])
    ensures Components([x, y, z]) == [NumeralValue(x), NumeralValue(y), NumeralValue(z)]
  {
    var ps := [x, y, z];
    assert ps[0] == x && ps[1] == y && ps[2] == z;
    var ns := Components(ps);
    assert ns[0] == NumeralValue(x) && ns[1] == NumeralValue(y) && ns[2] == NumeralValue(z);
  }

  lemma RenderComponents(a: nat, b: nat, c: nat)
    ensures AllNumerals([Decimal(a), Decimal(b), Decimal(c)])
    ensures Components([Decimal(a), Decimal(b), Decimal(c)]) == [a, b, c]
  {
    NumeralComponents(Decimal(a), Decimal(b), Decimal(c));
  }

  /** The intended property: a three-component version links to its heading
      exactly when it is 1.4.3 or later. */
  lemma IntendedLinksFromMinimum(a: nat, b: nat, c: nat)
    ensures IntendedChangelogUrlFor(Str(Render(a, b, c)))
         == if AtLeastMinimum(a, b, c) then BaseUrl + "v" + (Decimal(a) + Decimal(b) + Decimal(c))
            else BaseUrl
  {
    RenderSplits(a, b, c);
    RenderComponents(a, b, c);
    SeqLessMinimum(a, b, c);
  }

  /** The code as written misses every 1.b.c with 10 <= b < 43: each is
      1.4.3 or later, yet the string `1` + `b` + `c` sorts below `143`, so
      the helper returns the bare URL. */
  lemma AsWrittenMissesTwoDigitMinors(b: nat, c: nat)
    requires 10 <= b < 43
    ensures AtLeastMinimum(1, b, c)
    ensures ChangelogUrlFor(Str(Render(1, b, c))) == BaseUrl
  {
    RenderSplits(1, b, c);
    var n := Decimal(1) + Decimal(b) + Decimal(c);
    var t := FirstPredictable;
    assert Decimal(b) == [Digit(b / 10), Digit(b % 10)];
    assert n[0] == '1' && n[1] == Digit(b / 10) && n[2] == Digit(b % 10);
    assert n[1..][0] == n[1] && n[1..][1..][0] == n[2];
    assert t[1..] == "43" && t[1..][1..] == "3";
    if b < 40 {
      assert n[1] < '4';
      assert Less(n[1..], t[1..]);
    } else {
      assert n[1] == '4' && n[2] < '3';
      assert Less(n[1..][1..], t[1..][1..]);
      assert Less(n[1..], t[1..]);
    }
    assert Less(n, t);
  }

  /** Likewise every 1.4.p with 10 <= p < 30: it is 1.4.3 or later, yet
      `14` + `p` sorts below `143`. */
  lemma AsWrittenMissesTwoDigitPatches(p: nat)
    requires 10 <= p < 30
    ensures AtLeastMinimum(1, 4, p)
    ensures ChangelogUrlFor(Str(Render(1, 4, p))) == BaseUrl
  {
    RenderSplits(1, 4, p);
    var n := Decimal(1) + Decimal(4) + Decimal(p);
    var t := FirstPredictable;
    assert Decimal(p) == [Digit(p / 10), Digit(p % 10)];
    assert n[0] == '1' && n[1] == '4' && n[2] == Digit(p / 10) && n[2] < '3';
    assert n[1..][0] == n[1] && n[1..][1..][0] == n[2];
    assert t[1..] == "43" && t[1..][1..] == "3";
    assert Less(n[1..][1..], t[1..][1..]);
    assert Less(n[1..], t[1..]);
    assert Less(n, t);
  }

  /** For Vault 1.10.0 the two helpers differ: as written there is no link,
      the corrected helper links to `v1100`. */
  lemma MinorTenExample(version: string)
    requires version == "1.10.0"
    ensures ChangelogUrlFor(Str(version)) == BaseUrl
    ensures IntendedChangelogUrlFor(Str(version)) == BaseUrl + "v" + "1100"
  {
    var x, y, z := Decimal(1), Decimal(10), Decimal(0);
    assert x == "1" && z == "0";
    assert y == x + z;
    assert x + "." + y + "." + z == version;
    AsWrittenMissesTwoDigitMinors(10, 0);
    IntendedLinksFromMinimum(1, 10, 0);
    assert x + y + z == "1100";
  }

  /** For Vault 1.4.10 the two helpers differ in the same way: as written
      there is no link, the corrected helper links to `v1410`. */
  lemma PatchTenExample(version: string)
    requires version == "1.4.10"
    ensures ChangelogUrlFor(Str(version)) == BaseUrl
    ensures IntendedChangelogUrlFor(Str(version)) == BaseUrl + "v" + "1410"
  {
    var x, y, z := Decimal(1), Decimal(4), Decimal(10);
    assert x == "1" && y == "4";
    assert z == x + [Digit(0)];
    assert x + "." + y + "." + z == version;
    AsWrittenMissesTwoDigitPatches(10);
    IntendedLinksFromMinimum(1, 4, 10);
    assert x + y + z == "1410";
  }

  /** With single-digit components, the versions the changelog had when the
      helper was written, the string comparison is exact and both helpers
      agree. */
  lemma AgreeOnSingleDigits(a: nat, b: nat, c: nat)
    requires a < 10 && b < 10 && c < 10
    ensures ChangelogUrlFor(Str(Render(a, b, c))) == IntendedChangelogUrlFor(Str(Render(a, b, c)))
  {
    RenderSplits(a, b, c);
    IntendedLinksFromMinimum(a, b, c);
    var n := [Digit(a), Digit(b), Digit(c)];
    assert Decimal(a) + Decimal(b) + Decimal(c) == n;
    var t := FirstPredictable;
    assert n[1..] == [Digit(b), Digit(c)] && n[1..][1..] == [Digit(c)] && n[1..][1..][1..] == [];
    assert t[1..] == "43" && t[1..][1..] == "3" && t[1..][1..][1..] == [];
    assert Less(n[1..][1..], t[1..][1..]) <==> c < 3;
    assert Less(n[1..], t[1..]) <==> b < 4 || (b == 4 && c < 3);
    assert Less(n, t) <==> !AtLeastMinimum(a, b, c);
  }
}

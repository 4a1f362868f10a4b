/** The part of the `semver` package's `gt` the catalog relies on: comparing
    plain `major.minor.patch` versions component by component. */
module Semver {
  import opened Strings

  /** `semver`'s limit on the length of a version string. */
  const MaxLength: nat := 256
  /** JavaScript's `Number.MAX_SAFE_INTEGER`, `semver`'s bound on a component. */
  const MaxSafeInteger: nat := 9007199254740991

  predicate IsDigit(c: char) {
    '0' <= c <= '9'
  }

  /** A numeric identifier: `0`, or decimal digits without a leading zero. */
  predicate IsNumericId(s: string) {
    && |s| > 0
    && (forall i :: 0 <= i < |s| ==> IsDigit(s[i]))
    && (s[0] == '0' ==> |s| == 1)
  }

  /** The value of a string of decimal digits. */
  function DigitsValue(s: string): nat
    requires forall i :: 0 <= i < |s| ==> IsDigit(s[i])
    decreases |s|
  {
    if s == [] then 0
    else
      assert IsDigit(s[|s| - 1]);
      DigitsValue(s[..|s| - 1]) * 10 + (s[|s| - 1] as int - '0' as int)
  }

  predicate IsComponent(s: string) {
    IsNumericId(s) && DigitsValue(s) <= MaxSafeInteger
  }

  /** The strings `semver` parses as a plain release version (no `v` prefix,
      pre-release or build suffix): three dot-separated components. */
  predicate IsVersion(s: string) {
    && |s| <= MaxLength
    && var parts := Split(s, ".");
    && |parts| == 3
    && IsComponent(parts[0]) && IsComponent(parts[1]) && IsComponent(parts[2])
  }

  datatype Triple = Triple(major: nat, minor: nat, patch: nat)

  function Components(s: string): Triple
    requires IsVersion(s)
  {
    var parts := Split(s, ".");
    Triple(DigitsValue(parts[0]), DigitsValue(parts[1]), DigitsValue(parts[2]))
  }

  /** Precedence on release versions: major, then minor, then patch. */
  predicate TripleGt(a: Triple, b: Triple) {
    || a.major > b.major
    || (a.major == b.major && a.minor > b.minor)
    || (a.major == b.major && a.minor == b.minor && a.patch > b.patch)
  }

  /** `semver.gt(a, b)`. */
  predicate Gt(a: string, b: string)
    requires IsVersion(a) && IsVersion(b)
  {
    TripleGt(Components(a), Components(b))
  }

  /** `gt` is a strict order: never true of a version and itself, never true
      both ways, and transitive. */
  lemma GtStrictOrder(a: string, b: string, c: string)
    requires IsVersion(a) && IsVersion(b) && IsVersion(c)
    ensures !Gt(a, a)
    ensures Gt(a, b) ==> !Gt(b, a)
    ensures Gt(a, b) && Gt(b, c) ==> Gt(a, c)
  {
  }

  /** Two versions that are not ordered either way have the same components. */
  lemma GtTotal(a: string, b: string)
    requires IsVersion(a) && IsVersion(b)
    ensures Gt(a, b) || Gt(b, a) || Components(a) == Components(b)
  {
  }

  lemma NoDot(s: string)
    requires IsNumericId(s)
    ensures '.' !in s
  {
    assert forall i :: 0 <= i < |s| ==> s[i] != '.';
  }

  /** Three components joined with dots form a version, with those values. */
  lemma {:induction false} VersionOf(x: string, y: string, z: string)
    requires IsComponent(x) && IsComponent(y) && IsComponent(z)
    requires |x| + |y| + |z| + 2 <= MaxLength
    ensures IsVersion(x + "." + y + "." + z)
    ensures Components(x + "." + y + "." + z) == Triple(DigitsValue(x), DigitsValue(y), DigitsValue(z))
  {
    var s := x + "." + y + "." + z;
    NoDot(x);
    NoDot(y);
    NoDot(z);
    SplitCharJoin([x, y, z], '.');
    assert Join([x, y, z], ".") == s by {
      assert [x, y, z][1..] == [y, z];
      assert [y, z][1..] == [z];
      assert Join([y, z], ".") == y + "." + z;
      assert Join([x, y, z], ".") == x + "." + (y + "." + z);
    }
  }
}

/** Versions ordered by section 11 of SemVer 2.0.0, as the `semver` crate (0.11)
compares them: build metadata takes part neither in the order nor in equality.
*/
module Semver {
  import opened Order

  datatype Identifier = Numeric(n: nat) | AlphaNumeric(s: string)

  datatype Version = Version(
    major: nat, minor: nat, patch: nat,
    pre: seq<Identifier>, build: seq<Identifier>)

  predicate IdentifierLess(a: Identifier, b: Identifier) {
    match (a, b)
    case (Numeric(m), Numeric(n)) => m < n
    case (Numeric(_), AlphaNumeric(_)) => true
    case (AlphaNumeric(_), Numeric(_)) => false
    case (AlphaNumeric(s), AlphaNumeric(t)) => StringLess(s, t)
  }

  /** `Version::cmp` is `Less`. A release ranks above its own prereleases. */
  predicate VersionLess(a: Version, b: Version) {
    if a.major != b.major then a.major < b.major
    else if a.minor != b.minor then a.minor < b.minor
    else if a.patch != b.patch then a.patch < b.patch
    else if a.pre == [] then false
    else if b.pre == [] then true
    else LexLess(IdentifierLess, a.pre, b.pre)
  }

  /** What identifies a version: everything but its build metadata. */
  function Release(v: Version): Version { v.(build := []) }

  /** `Version::eq`. */
  predicate SameVersion(a: Version, b: Version) { Release(a) == Release(b) }

  // ---------- section 11 in its own words ----------

  ghost predicate TextBelow(s: string, t: string) {
    exists k :: 0 <= k <= |s| && k < |t| && s[..k] == t[..k] && (k == |s| || s[k] < t[k])
  }

  /** Numbers compare as numbers and stand below texts, and texts compare as texts. */
  ghost predicate FieldBelow(a: Identifier, b: Identifier) {
    || (a.Numeric? && b.Numeric? && a.n < b.n)
    || (a.Numeric? && b.AlphaNumeric?)
    || (a.AlphaNumeric? && b.AlphaNumeric? && TextBelow(a.s, b.s))
  }

  /** At the first differing field `k` the one prerelease ends or has the lesser field. */
  ghost predicate PreBelowAt(a: Version, b: Version, k: int) {
    && 0 <= k <= |a.pre| && k < |b.pre|
    && (forall i :: 0 <= i < k ==> a.pre[i] == b.pre[i])
    && (k == |a.pre| || FieldBelow(a.pre[k], b.pre[k]))
  }

  /** The three numbers decide; between equal ones a prerelease is below its release, and two prereleases
      compare at the first field in which they differ. */
  lemma VersionLessExactly(a: Version, b: Version)
    ensures VersionLess(a, b)
            <==> || a.major < b.major
                 || (a.major == b.major && a.minor < b.minor)
                 || (a.major == b.major && a.minor == b.minor && a.patch < b.patch)
                 || (a.major == b.major && a.minor == b.minor && a.patch == b.patch
                     && a.pre != [] && (b.pre == [] || exists k :: PreBelowAt(a, b, k)))
  {
    LexLessExactly(IdentifierLess, a.pre, b.pre);
    forall x: Identifier, y: Identifier
      ensures IdentifierLess(x, y) <==> FieldBelow(x, y)
    {
      if x.AlphaNumeric? && y.AlphaNumeric? {
        StringLessExactly(x.s, y.s);
      }
    }
    forall k
      ensures DecidedAt(IdentifierLess, a.pre, b.pre, k) <==> PreBelowAt(a, b, k)
    {
    }
  }

  lemma IdentifierLessTotal()
    ensures StrictTotal(IdentifierLess)
  {
    StringLessTotal();
  }

  lemma {:induction false} VersionLessTransitive(a: Version, b: Version, c: Version)
    requires VersionLess(a, b) && VersionLess(b, c)
    ensures VersionLess(a, c)
  {
    IdentifierLessTotal();
    if a.pre != [] && b.pre != [] && c.pre != [] && LexLess(IdentifierLess, a.pre, b.pre) && LexLess(IdentifierLess, b.pre, c.pre) {
      LexTransitive(IdentifierLess, a.pre, b.pre, c.pre);
    }
  }

  /** Comparing decides: exactly one of less, greater, same version. */
  lemma {:induction false} VersionTrichotomy(a: Version, b: Version)
    ensures SameVersion(a, b) <==> !VersionLess(a, b) && !VersionLess(b, a)
    ensures !(VersionLess(a, b) && VersionLess(b, a))
  {
    IdentifierLessTotal();
    LexConnected(IdentifierLess, a.pre, b.pre);
    LexIrreflexive(IdentifierLess, a.pre);
    if LexLess(IdentifierLess, a.pre, b.pre) && LexLess(IdentifierLess, b.pre, a.pre) {
      LexTransitive(IdentifierLess, a.pre, b.pre, a.pre);
    }
  }

  /** The order is a strict weak order whose ties are exactly `SameVersion`. */
  lemma VersionLessWeak()
    ensures StrictWeak(VersionLess)
    ensures forall a, b :: SameVersion(a, b) <==> !VersionLess(a, b) && !VersionLess(b, a)
  {
    forall a, b
      ensures SameVersion(a, b) <==> !VersionLess(a, b) && !VersionLess(b, a)
      ensures !VersionLess(a, a)
    {
      VersionTrichotomy(a, b);
      VersionTrichotomy(a, a);
    }
    forall a, b, c | VersionLess(a, b) && VersionLess(b, c)
      ensures VersionLess(a, c)
    {
      VersionLessTransitive(a, b, c);
    }
    forall a, b, c | VersionLess(a, c)
      ensures VersionLess(a, b) || VersionLess(b, c)
    {
      VersionTrichotomy(a, b);
      if !VersionLess(a, b) {
        if VersionLess(b, a) {
          VersionLessTransitive(b, a, c);
        } else {
          assert Release(a) == Release(b);
          assert VersionLess(b, c) == VersionLess(a, c);
        }
      }
    }
  }
}

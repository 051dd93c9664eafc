/** The release script's way of finding the latest version: versions padded to three digits and compared
as strings.
*/
module Changelog {
  import opened Listing
  import opened Order
  import opened Results
  import opened Strings
  import Semver

  datatype SemVer = SemVer(major: nat, minor: nat, patch: nat, prerelease: string, build: string)

  /** `{:03}` */
  function Pad(n: nat): string {
    var digits := ShowNat(n);
    if |digits| == 1 then "00" + digits else if |digits| == 2 then "0" + digits else digits
  }

  function Tail(v: SemVer): string {
    "." + (v.prerelease + ("." + v.build))
  }

  function PaddedVersion(v: SemVer): string {
    Pad(v.major) + ("." + (Pad(v.minor) + ("." + (Pad(v.patch) + Tail(v)))))
  }

  // ---------- from text ----------

  /** `partition`: the text before and after the first separator. */
  function Partition(s: string, separator: char): (string, string) {
    var n := Span(c => c != separator, s);
    (s[..n], if n < |s| then s[n + 1..] else "")
  }

  /** `int` on plain digits. */
  function ParseNat(s: string): Option<nat> {
    if s != [] && All(IsDigit, s) then Some(DigitsValue(s)) else None
  }

  function ParseVersion(s: string): Option<SemVer> {
    var (versionAndPre, build) := Partition(s, '+');
    var (version, prerelease) := Partition(versionAndPre, '-');
    var (major, rest) := Partition(version, '.');
    var (minor, patch) := Partition(rest, '.');
    match (ParseNat(major), ParseNat(minor), ParseNat(patch))
    case (Some(a), Some(b), Some(c)) => Some(SemVer(a, b, c, prerelease, build))
    case _ => None
  }

  function Triple(v: SemVer): string {
    ShowNat(v.major) + ("." + (ShowNat(v.minor) + ("." + ShowNat(v.patch))))
  }

  function Optional(c: char, s: string): string {
    if s == "" then "" else [c] + s
  }

  /** The version in the form in which changelogs have it. */
  function Text(v: SemVer): string {
    (Triple(v) + Optional('-', v.prerelease)) + Optional('+', v.build)
  }

  lemma PartitionAt(s: string, separator: char, rest: string)
    requires separator !in s
    ensures Partition(s + ([separator] + rest), separator) == (s, rest)
    ensures Partition(s, separator) == (s, "")
  {
    forall i | 0 <= i < |s|
      ensures s[i] != separator
    {
      assert s[i] in s;
    }
    SpanFinds(c => c != separator, s, [separator] + rest);
    SpanFinds(c => c != separator, s, "");
    assert s + "" == s;
    assert (s + ([separator] + rest))[|s| + 1..] == rest;
  }

  lemma DigitsOnly(n: nat, c: char)
    requires !IsDigit(c)
    ensures c !in ShowNat(n) && ParseNat(ShowNat(n)) == Some(n)
  {
    DigitsReadBack(n);
  }

  lemma NotInConcat(c: char, s: string, t: string)
    requires c !in s && c !in t
    ensures c !in s + t
  {
  }

  lemma NotInTriple(v: SemVer, c: char)
    requires !IsDigit(c) && c != '.'
    ensures c !in Triple(v)
  {
    DigitsOnly(v.major, c);
    DigitsOnly(v.minor, c);
    DigitsOnly(v.patch, c);
    NotInConcat(c, ".", ShowNat(v.patch));
    NotInConcat(c, ShowNat(v.minor), "." + ShowNat(v.patch));
    NotInConcat(c, ".", ShowNat(v.minor) + ("." + ShowNat(v.patch)));
    NotInConcat(c, ShowNat(v.major), "." + (ShowNat(v.minor) + ("." + ShowNat(v.patch))));
  }

  lemma TripleParts(v: SemVer)
    ensures var minorAndPatch := ShowNat(v.minor) + ("." + ShowNat(v.patch));
            && Partition(Triple(v), '.') == (ShowNat(v.major), minorAndPatch)
            && Partition(minorAndPatch, '.') == (ShowNat(v.minor), ShowNat(v.patch))
  {
    DigitsOnly(v.major, '.');
    DigitsOnly(v.minor, '.');
    PartitionAt(ShowNat(v.major), '.', ShowNat(v.minor) + ("." + ShowNat(v.patch)));
    PartitionAt(ShowNat(v.minor), '.', ShowNat(v.patch));
  }

  lemma OptionalPart(s: string, c: char, rest: string)
    requires c !in s
    ensures Partition(s + Optional(c, rest), c) == (s, rest)
  {
    PartitionAt(s, c, rest);
    assert s + "" == s;
  }

  /** Text and numbers agree: a version reads back from its text if the prerelease has no plus sign. */
  lemma TextReadsBack(v: SemVer)
    requires '+' !in v.prerelease
    ensures ParseVersion(Text(v)) == Some(v)
  {
    NotInTriple(v, '+');
    NotInTriple(v, '-');
    NotInConcat('+', "-", v.prerelease);
    NotInConcat('+', Triple(v), Optional('-', v.prerelease));
    OptionalPart(Triple(v) + Optional('-', v.prerelease), '+', v.build);
    OptionalPart(Triple(v), '-', v.prerelease);
    TripleParts(v);
    DigitsOnly(v.major, '.');
    DigitsOnly(v.minor, '.');
    DigitsOnly(v.patch, '.');
  }

  // ---------- the order of padded versions ----------

  predicate TripleLess(a: SemVer, b: SemVer) {
    if a.major != b.major then a.major < b.major
    else if a.minor != b.minor then a.minor < b.minor
    else a.patch < b.patch
  }

  predicate SameTriple(a: SemVer, b: SemVer) {
    a.major == b.major && a.minor == b.minor && a.patch == b.patch
  }

  predicate Within(v: SemVer, bound: nat) {
    v.major < bound && v.minor < bound && v.patch < bound
  }

  predicate IsRelease(v: SemVer) {
    v.prerelease == "" && v.build == ""
  }

  lemma {:induction false} LexCommonPrefix(p: string, x: string, y: string)
    ensures StringLess(p + x, p + y) <==> StringLess(x, y)
  {
    if p == [] {
      assert p + x == x && p + y == y;
    } else {
      assert (p + x)[1..] == p[1..] + x && (p + y)[1..] == p[1..] + y;
      LexCommonPrefix(p[1..], x, y);
    }
  }

  lemma {:induction false} LexDecided(p: string, q: string, x: string, y: string)
    requires |p| == |q| && StringLess(p, q)
    ensures StringLess(p + x, q + y) && !StringLess(q + y, p + x)
  {
    assert (p + x)[1..] == p[1..] + x && (q + y)[1..] == q[1..] + y;
    if p[0] == q[0] {
      LexDecided(p[1..], q[1..], x, y);
    }
  }

  lemma TwoDigits(n: nat)
    requires 10 <= n < 100
    ensures ShowNat(n) == [Digit(n / 10), Digit(n % 10)]
  {
    assert ShowNat(n / 10) == [Digit(n / 10)];
  }

  lemma PadDigits(n: nat)
    requires n < 1000
    ensures Pad(n) == [Digit(n / 100), Digit(n / 10 % 10), Digit(n % 10)]
  {
    assert Digit(0) == '0';
    if n < 10 {
      assert ShowNat(n) == [Digit(n)];
    } else if n < 100 {
      TwoDigits(n);
    } else {
      TwoDigits(n / 10);
      assert n / 10 / 10 == n / 100;
      assert ShowNat(n) == [Digit(n / 100), Digit(n / 10 % 10)] + [Digit(n % 10)];
    }
  }

  lemma LexHead(c: char, s: string, d: char, t: string)
    ensures StringLess([c] + s, [d] + t) <==> c < d || (c == d && StringLess(s, t))
  {
    assert ([c] + s)[1..] == s && ([d] + t)[1..] == t;
  }

  lemma LexThree(a: char, b: char, c: char, x: char, y: char, z: char)
    ensures StringLess([a, b, c], [x, y, z]) <==> a < x || (a == x && (b < y || (b == y && c < z)))
  {
    LexHead(a, [b, c], x, [y, z]);
    LexHead(b, [c], y, [z]);
    LexHead(c, [], z, []);
    assert [a, b, c] == [a] + [b, c] && [x, y, z] == [x] + [y, z];
    assert [b, c] == [b] + [c] && [y, z] == [y] + [z];
    assert [c] == [c] + [] && [z] == [z] + [];
  }

  lemma DigitOrder(m: nat, n: nat)
    requires m < 10 && n < 10
    ensures Digit(m) < Digit(n) <==> m < n
    ensures Digit(m) == Digit(n) <==> m == n
  {
  }

  lemma DigitsOrder(m: nat, n: nat)
    requires m < n < 1000
    ensures m / 100 < n / 100 || (m / 100 == n / 100 && (m / 10 % 10 < n / 10 % 10 || (m / 10 % 10 == n / 10 % 10 && m % 10 < n % 10)))
  {
    assert m == 100 * (m / 100) + 10 * (m / 10 % 10) + m % 10 by {
      assert m / 10 / 10 == m / 100;
    }
    assert n == 100 * (n / 100) + 10 * (n / 10 % 10) + n % 10 by {
      assert n / 10 / 10 == n / 100;
    }
  }

  /** Below 1000, padding makes the order of strings the order of numbers. */
  lemma PadOrder(m: nat, n: nat)
    requires m < n < 1000
    ensures |Pad(m)| == |Pad(n)| == 3 && StringLess(Pad(m), Pad(n))
  {
    PadDigits(m);
    PadDigits(n);
    DigitsOrder(m, n);
    DigitOrder(m / 100, n / 100);
    DigitOrder(m / 10 % 10, n / 10 % 10);
    DigitOrder(m % 10, n % 10);
    LexThree(Digit(m / 100), Digit(m / 10 % 10), Digit(m % 10), Digit(n / 100), Digit(n / 10 % 10), Digit(n % 10));
  }

  /** One component decides, or the rest does. */
  lemma ComponentOrder(m: nat, n: nat, x: string, y: string)
    requires m < 1000 && n < 1000
    ensures StringLess(Pad(m) + x, Pad(n) + y) <==> m < n || (m == n && StringLess(x, y))
  {
    if m < n {
      PadOrder(m, n);
      LexDecided(Pad(m), Pad(n), x, y);
    } else if n < m {
      PadOrder(n, m);
      LexDecided(Pad(n), Pad(m), y, x);
    } else {
      LexCommonPrefix(Pad(m), x, y);
    }
  }

  /** For components below 1000, padded versions compare by their numbers, and between equal numbers by
      prerelease and build as strings. */
  lemma PaddedOrder(a: SemVer, b: SemVer)
    requires Within(a, 1000) && Within(b, 1000)
    ensures StringLess(PaddedVersion(a), PaddedVersion(b)) <==> TripleLess(a, b) || (SameTriple(a, b) && StringLess(Tail(a), Tail(b)))
  {
    var a3, b3 := Pad(a.patch) + Tail(a), Pad(b.patch) + Tail(b);
    var a2, b2 := Pad(a.minor) + ("." + a3), Pad(b.minor) + ("." + b3);
    ComponentOrder(a.major, b.major, "." + a2, "." + b2);
    LexCommonPrefix(".", a2, b2);
    ComponentOrder(a.minor, b.minor, "." + a3, "." + b3);
    LexCommonPrefix(".", a3, b3);
    ComponentOrder(a.patch, b.patch, Tail(a), Tail(b));
  }

  function AsVersion(v: SemVer): Semver.Version {
    Semver.Version(v.major, v.minor, v.patch, [], [])
  }

  /** For releases that is the order of section 11 of SemVer 2.0.0. */
  lemma ReleasesInOrder(a: SemVer, b: SemVer)
    requires Within(a, 1000) && Within(b, 1000) && IsRelease(a) && IsRelease(b)
    ensures StringLess(PaddedVersion(a), PaddedVersion(b)) <==> Semver.VersionLess(AsVersion(a), AsVersion(b))
  {
    PaddedOrder(a, b);
    StringLessTotal();
    assert Tail(a) == Tail(b);
  }

  ghost predicate OrdersReleases(bound: nat) {
    forall a, b :: Within(a, bound) && Within(b, bound) && IsRelease(a) && IsRelease(b) ==>
      (StringLess(PaddedVersion(a), PaddedVersion(b)) <==> TripleLess(a, b))
  }

  lemma ThousandSortsFirst()
    ensures StringLess(PaddedVersion(SemVer(1000, 0, 0, "", "")), PaddedVersion(SemVer(999, 0, 0, "", "")))
  {
    PadDigits(999);
    assert ShowNat(1000) == ShowNat(100) + ['0'];
    assert ShowNat(100) == ShowNat(10) + ['0'];
    assert ShowNat(10) == ['1'] + ['0'];
    assert Pad(1000)[0] == '1' && Pad(999)[0] == '9';
  }

  /** A thousand is the exact bound. */
  lemma OrdersReleasesExactly(bound: nat)
    ensures OrdersReleases(bound) <==> bound <= 1000
  {
    if bound <= 1000 {
      forall a, b | Within(a, bound) && Within(b, bound) && IsRelease(a) && IsRelease(b)
        ensures StringLess(PaddedVersion(a), PaddedVersion(b)) <==> TripleLess(a, b)
      {
        ReleasesInOrder(a, b);
      }
    } else {
      ThousandSortsFirst();
      var a, b := SemVer(1000, 0, 0, "", ""), SemVer(999, 0, 0, "", "");
      assert Within(a, bound) && Within(b, bound) && !TripleLess(a, b);
    }
  }

  /** A prerelease sorts above its own release, where SemVer wants it below, exactly if it does not begin
      with a character before the dot. */
  lemma PrereleasesSortAboveExactly(release: SemVer, prerelease: SemVer)
    requires Within(release, 1000) && IsRelease(release)
    requires SameTriple(release, prerelease) && prerelease.prerelease != ""
    ensures StringLess(PaddedVersion(release), PaddedVersion(prerelease)) <==> prerelease.prerelease[0] >= '.'
  {
    PaddedOrder(release, prerelease);
    var rest := prerelease.prerelease + ("." + prerelease.build);
    LexCommonPrefix(".", "" + ("." + ""), rest);
    assert "" + ("." + "") == "." == ['.'] + "";
    assert rest == [rest[0]] + rest[1..] && rest[1..] != "";
    LexHead('.', "", rest[0], rest[1..]);
  }

  // ---------- the latest ----------

  /** A changelog's entries in the order of the file. */
  datatype Entry = Entry(name: string, version: SemVer)

  predicate KeyLess(a: Entry, b: Entry) {
    StringLess(PaddedVersion(a.version), PaddedVersion(b.version))
  }

  function Released(entries: seq<Entry>): seq<Entry> {
    if entries == [] then []
    else if entries[0].name == "unreleased" then Released(entries[1..])
    else [entries[0]] + Released(entries[1..])
  }

  /** The last entry of the stably sorted ones; inserting later entries behind equal ones keeps their order. */
  function FindLatest(entries: seq<Entry>): Option<Entry> {
    var sorted := SortBy(KeyLess, Reversed(Released(entries)));
    if sorted == [] then None else Some(sorted[|sorted| - 1])
  }

  lemma KeyLessWeak()
    ensures StrictWeak(KeyLess)
  {
    StringLessTotal();
    forall a, b, c | KeyLess(a, c)
      ensures KeyLess(a, b) || KeyLess(b, c)
    {
      var x, y, z := PaddedVersion(a.version), PaddedVersion(b.version), PaddedVersion(c.version);
      assert StringLess(x, y) || StringLess(y, x) || x == y;
    }
  }

  lemma {:induction false} ReleasedAre(entries: seq<Entry>)
    ensures forall e :: e in Released(entries) <==> e in entries && e.name != "unreleased"
    ensures NoDup(entries) ==> NoDup(Released(entries))
  {
    if entries != [] {
      ReleasedAre(entries[1..]);
      assert entries == [entries[0]] + entries[1..];
      if NoDup(entries) {
        assert NoDup(entries[1..]);
        assert entries[0] !in entries[1..];
      }
    }
  }

  lemma ReversedHolds(s: seq<Entry>)
    ensures Elements(Reversed(s)) == Elements(s)
    ensures NoDup(s) ==> NoDup(Reversed(s))
  {
    var r := Reversed(s);
    forall e
      ensures e in r <==> e in s
    {
      if i :| 0 <= i < |s| && s[i] == e {
        assert r[|s| - 1 - i] == e;
      }
    }
  }

  /** The latest is a released entry whose padded version no other's exceeds; there is none only if nothing
      is released. */
  lemma LatestIsGreatest(entries: seq<Entry>)
    requires NoDup(entries)
    ensures FindLatest(entries) == None <==> forall e :: e in entries ==> e.name == "unreleased"
    ensures FindLatest(entries).Some? ==>
              && FindLatest(entries).value in entries && FindLatest(entries).value.name != "unreleased"
              && forall e :: e in entries && e.name != "unreleased" ==> !KeyLess(FindLatest(entries).value, e)
  {
    var released := Released(entries);
    var sorted := SortBy(KeyLess, Reversed(released));
    ReleasedAre(entries);
    ReversedHolds(released);
    KeyLessWeak();
    SortByLists(KeyLess, Reversed(released));
    forall e
      ensures e in sorted <==> e in entries && e.name != "unreleased"
    {
      assert e in Elements(sorted) <==> e in sorted;
      assert e in Elements(released) <==> e in released;
    }
    if sorted == [] {
      forall e | e in entries
        ensures e.name == "unreleased"
      {
        assert e !in sorted;
      }
    } else {
      var last := sorted[|sorted| - 1];
      assert last in sorted;
      forall e | e in entries && e.name != "unreleased"
        ensures !KeyLess(last, e)
      {
        var i :| 0 <= i < |sorted| && sorted[i] == e;
      }
    }
  }

  lemma {:induction false} LastInserted(before: (Entry, Entry) -> bool, x: Entry, s: seq<Entry>)
    requires StrictWeak(before) && Sorted(before, s)
    ensures var t := Insert(before, x, s);
            t != [] && t[|t| - 1] == if s != [] && before(x, s[|s| - 1]) then s[|s| - 1] else x
  {
    if s != [] && !before(x, s[0]) {
      LastInserted(before, x, s[1..]);
      var t := Insert(before, x, s[1..]);
      assert Insert(before, x, s) == [s[0]] + t;
    } else if s != [] {
      assert Insert(before, x, s) == [x] + s;
      assert !before(s[|s| - 1], s[0]);
    }
  }

  /** The last of the sorted is the first of those that no other exceeds. */
  ghost predicate FirstGreatest(before: (Entry, Entry) -> bool, s: seq<Entry>, i: int) {
    && 0 <= i < |s|
    && (forall j :: 0 <= j < i ==> before(s[j], s[i]))
    && (forall j :: i <= j < |s| ==> !before(s[i], s[j]))
  }

  lemma FirstOrRest(before: (Entry, Entry) -> bool, s: seq<Entry>, k: int)
    requires StrictWeak(before) && s != [] && FirstGreatest(before, s[1..], k)
    ensures FirstGreatest(before, s, if before(s[0], s[1..][k]) then k + 1 else 0)
  {
    var x := s[1..][k];
    forall j | 0 < j < |s|
      ensures j < k + 1 ==> before(s[j], x)
      ensures !before(x, s[j])
      ensures before(s[0], s[j]) ==> before(s[0], x)
    {
      assert s[j] == s[1..][j - 1];
      assert !before(x, s[1..][j - 1]);
    }
  }

  lemma {:induction false} LastSorted(before: (Entry, Entry) -> bool, s: seq<Entry>) returns (i: int)
    requires StrictWeak(before) && NoDup(s) && s != []
    ensures SortBy(before, s) != [] && FirstGreatest(before, s, i) && SortBy(before, s)[|SortBy(before, s)| - 1] == s[i]
  {
    var rest := s[1..];
    SortByLists(before, rest);
    LastInserted(before, s[0], SortBy(before, rest));
    if rest == [] {
      i := 0;
    } else {
      var k := LastSorted(before, rest);
      FirstOrRest(before, s, k);
      i := if before(s[0], rest[k]) then k + 1 else 0;
    }
  }

  /** Seen from the other end: all after it are below it. */
  lemma LastOfReversed(before: (Entry, Entry) -> bool, released: seq<Entry>, reversed: seq<Entry>, k: int)
    requires |reversed| == |released| && forall i :: 0 <= i < |reversed| ==> reversed[i] == released[|released| - 1 - i]
    requires FirstGreatest(before, reversed, k)
    ensures var r := |released| - 1 - k;
            && 0 <= r < |released| && reversed[k] == released[r]
            && forall q :: r < q < |released| ==> before(released[q], released[r])
  {
    var r := |released| - 1 - k;
    forall q | r < q < |released|
      ensures before(released[q], released[r])
    {
      var j := |released| - 1 - q;
      assert reversed[j] == released[q] && before(reversed[j], reversed[k]);
    }
  }

  lemma {:induction false} ReleasedAt(entries: seq<Entry>, r: nat) returns (i: nat)
    requires r < |Released(entries)|
    ensures i < |entries| && entries[i] == Released(entries)[r] && Released(entries[i + 1..]) == Released(entries)[r + 1..]
  {
    if entries[0].name == "unreleased" {
      i := ReleasedAt(entries[1..], r);
      assert entries[1..][i + 1..] == entries[i + 2..];
      i := i + 1;
    } else if r == 0 {
      i := 0;
    } else {
      i := ReleasedAt(entries[1..], r - 1);
      assert entries[1..][i + 1..] == entries[i + 2..];
      i := i + 1;
    }
  }

  lemma LaterAreReleased(before: (Entry, Entry) -> bool, entries: seq<Entry>, i: nat, r: nat)
    requires i < |entries| && r < |Released(entries)| && Released(entries[i + 1..]) == Released(entries)[r + 1..]
    requires forall q :: r < q < |Released(entries)| ==> before(Released(entries)[q], Released(entries)[r])
    ensures forall j :: i < j < |entries| && entries[j].name != "unreleased" ==> before(entries[j], Released(entries)[r])
  {
    var later := entries[i + 1..];
    ReleasedAre(later);
    forall j | i < j < |entries| && entries[j].name != "unreleased"
      ensures before(entries[j], Released(entries)[r])
    {
      assert later[j - i - 1] == entries[j] && entries[j] in later;
      var q :| 0 <= q < |Released(later)| && Released(later)[q] == entries[j];
      assert Released(entries)[r + 1 + q] == entries[j];
    }
  }

  lemma LastBy(before: (Entry, Entry) -> bool, entries: seq<Entry>) returns (i: nat)
    requires StrictWeak(before) && NoDup(entries) && Released(entries) != []
    ensures var sorted := SortBy(before, Reversed(Released(entries)));
            sorted != [] && i < |entries| && entries[i] == sorted[|sorted| - 1]
    ensures forall j :: i < j < |entries| && entries[j].name != "unreleased" ==> before(entries[j], entries[i])
  {
    var released := Released(entries);
    ReleasedAre(entries);
    ReversedHolds(released);
    var k := LastSorted(before, Reversed(released));
    LastOfReversed(before, released, Reversed(released), k);
    var r := |released| - 1 - k;
    i := ReleasedAt(entries, r);
    LaterAreReleased(before, entries, i, r);
  }

  /** Of several that no other exceeds it is the last in the file: every released entry after it is below it. */
  lemma LatestIsLast(entries: seq<Entry>) returns (i: nat)
    requires NoDup(entries) && FindLatest(entries).Some?
    ensures i < |entries| && entries[i] == FindLatest(entries).value
    ensures forall j :: i < j < |entries| && entries[j].name != "unreleased" ==> KeyLess(entries[j], entries[i])
  {
    KeyLessWeak();
    i := LastBy(KeyLess, entries);
  }

  /** Among releases with components below 1000 it is the numerically greatest. */
  lemma LatestReleaseIsNewest(entries: seq<Entry>, e: Entry)
    requires NoDup(entries) && e in entries && e.name != "unreleased"
    requires forall x :: x in entries && x.name != "unreleased" ==> Within(x.version, 1000) && IsRelease(x.version)
    ensures FindLatest(entries).Some?
    ensures !Semver.VersionLess(AsVersion(FindLatest(entries).value.version), AsVersion(e.version))
  {
    LatestIsGreatest(entries);
    ReleasesInOrder(FindLatest(entries).value.version, e.version);
  }
}

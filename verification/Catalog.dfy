/** Stored functions and the questions both registries answer about them: which
functions match a filter, which is the newest of each name, and in which order
they are listed.
*/
module Catalog {
  import opened Order
  import opened Listing
  import opened Results
  import opened Semver
  import opened Strings

  datatype Publisher = Publisher(name: string, email: string)

  datatype Function = Function(
    name: string, version: Version, metadata: map<string, string>, publisher: Publisher,
    code: Option<string>, attachments: seq<string>, createdAt: nat, body: nat)

  datatype Ordering = Ordering(reverse: bool, offset: nat, limit: nat)

  /** A request as it arrives; the version requirement is still text. */
  datatype Filters = Filters(
    name: string, requirement: Option<string>, metadata: map<string, string>,
    order: Option<Ordering>, publisherEmail: string)

  const DEFAULT_ORDERING := Ordering(false, 0, 100)

  /** What identifies a stored function; build metadata does not. */
  function KeyOf(f: Function): (string, Version) { (f.name, Release(f.version)) }

  ghost predicate UniqueKeys(S: set<Function>) {
    forall f, g :: f in S && g in S && KeyOf(f) == KeyOf(g) ==> f == g
  }

  /** Listings are ordered by name, the newest version of a name first. */
  predicate Before(a: Function, b: Function) {
    StringLess(a.name, b.name) || (a.name == b.name && VersionLess(b.version, a.version))
  }

  lemma BeforeWeak()
    ensures StrictWeak(Before)
  {
    StringLessTotal();
    VersionLessWeak();
    forall a, b, c | Before(a, c)
      ensures Before(a, b) || Before(b, c)
    {
      if a.name == b.name == c.name {
        assert VersionLess(c.version, b.version) || VersionLess(b.version, a.version);
      }
    }
  }

  /** Functions with different keys never tie, in either direction. */
  lemma UniqueKeysNeverTie(S: set<Function>, reverse: bool)
    requires UniqueKeys(S)
    ensures NoTies(Direction(Before, reverse), S)
  {
    StringLessTotal();
    forall f, g | f in S && g in S && f != g
      ensures Before(f, g) || Before(g, f)
    {
      VersionTrichotomy(f.version, g.version);
    }
    if reverse {
      assert forall f, g :: Flip(Before)(f, g) == Before(g, f);
    }
  }

  // ---------- filters ----------

  predicate VersionMatches(requirement: Option<Version -> bool>, f: Function) {
    match requirement
    case None => true
    case Some(accepts) => accepts(f.version)
  }

  predicate MetadataMatches(wanted: map<string, string>, f: Function) {
    forall k :: k in wanted ==> k in f.metadata && (wanted[k] == "" || f.metadata[k] == wanted[k])
  }

  predicate Retained(filters: Filters, f: Function) {
    MetadataMatches(filters.metadata, f) && Contains(f.publisher.email, filters.publisherEmail)
  }

  function Select(keep: Function -> bool, fs: seq<Function>): (r: seq<Function>)
    ensures forall f :: f in r <==> f in fs && keep(f)
  {
    if fs == [] then []
    else
      var rest := Select(keep, fs[1..]);
      if keep(fs[0]) then [fs[0]] + rest else rest
  }

  lemma {:induction false} SelectKeepsDistinct(keep: Function -> bool, fs: seq<Function>)
    requires NoDup(fs)
    ensures NoDup(Select(keep, fs))
  {
    if fs != [] {
      SelectKeepsDistinct(keep, fs[1..]);
      assert fs[0] !in fs[1..];
    }
  }

  /** What a request asks of metadata and publisher: every wanted key is there, with the wanted value unless
      that is empty, and the publisher's address contains the wanted text. */
  ghost predicate Described(metadata: map<string, string>, email: string, f: Function) {
    && (forall k :: k in metadata ==> k in f.metadata && (metadata[k] != "" ==> f.metadata[k] == metadata[k]))
    && Contains(f.publisher.email, email)
  }

  lemma RetainedExactly(filters: Filters, f: Function)
    ensures Retained(filters, f) <==> Described(filters.metadata, filters.publisherEmail, f)
  {
    if Retained(filters, f) {
      assert MetadataMatches(filters.metadata, f);
    }
  }

  /** `a` may be shown before `b`: by name, and the newest version of a name first. */
  ghost predicate InOrder(reverse: bool, a: Function, b: Function) {
    var first, second := if reverse then b else a, if reverse then a else b;
    && !StringLess(second.name, first.name)
    && (first.name == second.name ==> !VersionLess(first.version, second.version))
  }

  lemma PagesAreInOrder(S: set<Function>, reverse: bool, offset: nat, limit: nat, page: seq<Function>)
    requires IsPage(Direction(Before, reverse), S, offset, limit, page)
    ensures |page| <= limit
    ensures forall i, j :: 0 <= i < j < |page| ==> InOrder(reverse, page[i], page[j])
    ensures forall f :: f in page ==> f in S
  {
    var s :| IsListing(Direction(Before, reverse), S, s) && page == Page(s, offset, limit);
    PageShows(s, offset, limit);
    forall f | f in page
      ensures f in S
    {
      assert f in Elements(s);
    }
    forall i, j | 0 <= i < j < |page|
      ensures InOrder(reverse, page[i], page[j])
    {
      assert page[i] == s[offset + i] && page[j] == s[offset + j];
      assert !Direction(Before, reverse)(s[offset + j], s[offset + i]);
      assert reverse ==> Flip(Before)(page[j], page[i]) == Before(page[i], page[j]);
    }
  }

  // ---------- the newest of each name ----------

  ghost function Newest(S: set<Function>): set<Function> {
    set f | f in S && forall g :: g in S && g.name == f.name ==> !VersionLess(f.version, g.version)
  }

  function KeepNewest(m: map<string, Function>, f: Function): map<string, Function> {
    if f.name in m && !VersionLess(m[f.name].version, f.version) then m else m[f.name := f]
  }

  /** The fold that groups the first `n` functions by name. */
  function GroupByName(fs: seq<Function>, n: nat): map<string, Function>
    requires n <= |fs|
  {
    if n == 0 then map[] else KeepNewest(GroupByName(fs, n - 1), fs[n - 1])
  }

  ghost predicate Covers(m: map<string, Function>, f: Function) {
    f.name in m && !VersionLess(m[f.name].version, f.version)
  }

  ghost predicate HoldsNewest(fs: seq<Function>, n: nat, m: map<string, Function>) {
    && n <= |fs|
    && (forall i :: 0 <= i < n ==> Covers(m, fs[i]))
    && (forall name :: name in m ==> m[name].name == name && m[name] in fs)
  }

  lemma KeepNewestStep(fs: seq<Function>, n: nat, m: map<string, Function>)
    requires n < |fs| && HoldsNewest(fs, n, m)
    ensures HoldsNewest(fs, n + 1, KeepNewest(m, fs[n]))
  {
    VersionLessWeak();
    var m' := KeepNewest(m, fs[n]);
    forall i | 0 <= i < n + 1
      ensures Covers(m', fs[i])
    {
      assert i < n ==> Covers(m, fs[i]);
    }
  }

  lemma {:induction false} GroupHoldsNewest(fs: seq<Function>, n: nat)
    requires n <= |fs|
    ensures HoldsNewest(fs, n, GroupByName(fs, n))
  {
    if n > 0 {
      GroupHoldsNewest(fs, n - 1);
      KeepNewestStep(fs, n - 1, GroupByName(fs, n - 1));
    }
  }

  /** Whatever order the fold meets the functions in, it ends with the newest of each name. */
  lemma GroupingFindsNewest(fs: seq<Function>)
    requires UniqueKeys(Elements(fs))
    ensures GroupByName(fs, |fs|).Values == Newest(Elements(fs))
  {
    GroupHoldsNewest(fs, |fs|);
    var m := GroupByName(fs, |fs|);
    forall f | f in m.Values
      ensures f in Newest(Elements(fs))
    {
      GroupedIsNewest(fs, m, f);
    }
    forall f | f in Newest(Elements(fs))
      ensures f in m.Values
    {
      NewestIsGrouped(fs, m, f);
    }
  }

  lemma GroupedIsNewest(fs: seq<Function>, m: map<string, Function>, f: Function)
    requires HoldsNewest(fs, |fs|, m) && f in m.Values
    ensures f in Newest(Elements(fs))
  {
    var name :| name in m && m[name] == f;
    forall g | g in Elements(fs) && g.name == f.name
      ensures !VersionLess(f.version, g.version)
    {
      var i :| 0 <= i < |fs| && fs[i] == g;
      assert Covers(m, fs[i]);
    }
  }

  lemma NewestIsGrouped(fs: seq<Function>, m: map<string, Function>, f: Function)
    requires HoldsNewest(fs, |fs|, m) && UniqueKeys(Elements(fs)) && f in Newest(Elements(fs))
    ensures f in m.Values
  {
    var i :| 0 <= i < |fs| && fs[i] == f;
    assert Covers(m, fs[i]);
    var w := m[f.name];
    assert w in Elements(fs);
    VersionTrichotomy(f.version, w.version);
    assert KeyOf(f) == KeyOf(w);
  }

  /** Groups by name, function by function, and yields the kept ones in some order. */
  method Groups(hits: seq<Function>) returns (values: seq<Function>)
    ensures NoDup(values) && Elements(values) == GroupByName(hits, |hits|).Values
  {
    var groups := map[];
    for i := 0 to |hits|
      invariant groups == GroupByName(hits, i)
    {
      groups := KeepNewest(groups, hits[i]);
    }
    values := Drain(groups.Values);
  }

  /** Which functions a listing shows: matched by name and version, then the newest of each name if
      grouped, then matched by metadata and publisher. */
  ghost function Selection(S: set<Function>, matching: Function -> bool, grouped: bool, retained: Function -> bool): set<Function> {
    var hits := set f | f in S && matching(f);
    set f | f in (if grouped then Newest(hits) else hits) && retained(f)
  }

  lemma SelectionKeepsKeysUnique(S: set<Function>, matching: Function -> bool, grouped: bool, retained: Function -> bool)
    requires UniqueKeys(S)
    ensures UniqueKeys(Selection(S, matching, grouped, retained))
  {
  }

  /** A page of the selection is determined by the stored set alone. */
  lemma PageDetermined(S: set<Function>, reverse: bool, offset: nat, limit: nat, a: seq<Function>, b: seq<Function>)
    requires UniqueKeys(S)
    requires IsPage(Direction(Before, reverse), S, offset, limit, a)
    requires IsPage(Direction(Before, reverse), S, offset, limit, b)
    ensures a == b
  {
    var before := Direction(Before, reverse);
    BeforeWeak();
    DirectionWeak(Before, reverse);
    UniqueKeysNeverTie(S, reverse);
    var s :| IsListing(before, S, s) && a == Page(s, offset, limit);
    var t :| IsListing(before, S, t) && b == Page(t, offset, limit);
    ListingUnique(before, S, s, t);
  }

  /** Collecting the selection and sorting it; the shape shared by both registries' `list`. */
  function SelectAndSort(fs: seq<Function>, matching: Function -> bool, grouped: bool, values: seq<Function>,
                         retained: Function -> bool, reverse: bool): seq<Function> {
    var hits := Select(matching, fs);
    var sorted := SortBy(Before, Select(retained, if grouped then values else hits));
    if reverse then Reversed(sorted) else sorted
  }

  /** `values` is one order in which the grouped map may be iterated. */
  ghost predicate IteratesGroups(fs: seq<Function>, matching: Function -> bool, values: seq<Function>) {
    var hits := Select(matching, fs);
    NoDup(values) && Elements(values) == GroupByName(hits, |hits|).Values
  }

  /** However the functions are stored and the groups iterated, the result lists the selection. */
  lemma SelectAndSortLists(fs: seq<Function>, matching: Function -> bool, grouped: bool, values: seq<Function>,
                           retained: Function -> bool, reverse: bool)
    requires NoDup(fs) && UniqueKeys(Elements(fs)) && IteratesGroups(fs, matching, values)
    ensures IsListing(Direction(Before, reverse), Selection(Elements(fs), matching, grouped, retained),
                      SelectAndSort(fs, matching, grouped, values, retained, reverse))
  {
    var hits := Select(matching, fs);
    var chosen := if grouped then values else hits;
    var kept := Select(retained, chosen);
    var S := Selection(Elements(fs), matching, grouped, retained);
    SelectKeepsDistinct(matching, fs);
    assert Elements(hits) == set f | f in Elements(fs) && matching(f);
    GroupingFindsNewest(hits);
    SelectKeepsDistinct(retained, chosen);
    assert Elements(kept) == S by {
      assert Elements(chosen) == if grouped then Newest(Elements(hits)) else Elements(hits);
      assert forall f :: f in kept <==> f in Elements(chosen) && retained(f);
    }
    BeforeWeak();
    SortByLists(Before, kept);
    if reverse {
      ReversedListing(Before, S, SortBy(Before, kept));
    }
  }
}

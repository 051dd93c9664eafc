/** Quinn's in-memory storage and how its listing relates to Avery's. */
module Quinn {
  import opened Listing
  import opened Results
  import opened Semver
  import opened Catalog
  import R = Registry
  import S = RegistryService
  import Strings

  /** A request after conversion. An empty metadata value asks for the key alone. */
  datatype StorageFilters = StorageFilters(
    name: string, requirement: Option<R.Requirement>, metadata: map<string, Option<string>>,
    order: Option<Ordering>, publisherEmail: string)

  datatype StorageError = VersionExists(name: string, version: Version) | NotFound

  function ClampLimit(limit: nat): nat { Min(if limit == 0 then 100 else limit, 1000) }

  function ConvertOrdering(order: Option<Ordering>): Option<Ordering> {
    match order
    case None => None
    case Some(o) => Some(Ordering(o.reverse, o.offset, ClampLimit(o.limit)))
  }

  /** Quinn's own parser of version requirements; Avery reads them the way `npm` does. */
  type Parser = string -> Option<R.Requirement>

  function ParseRequirement(parse: Parser, filters: Filters): Result<Option<R.Requirement>, R.Status> {
    match filters.requirement
    case None => Ok(None)
    case Some(text) =>
      match parse(text)
      case None => Err(R.BadRequirement)
      case Some(accepts) => Ok(Some(accepts))
  }

  /** `TryFrom<Filters>`. */
  function Convert(parse: Parser, filters: Filters): Result<StorageFilters, R.Status> {
    match ParseRequirement(parse, filters)
    case Err(e) => Err(e)
    case Ok(requirement) =>
      Ok(StorageFilters(
           filters.name, requirement,
           map k | k in filters.metadata :: if filters.metadata[k] == "" then None else Some(filters.metadata[k]),
           ConvertOrdering(filters.order), filters.publisherEmail))
  }

  /** The conversion fails exactly if the requirement does not parse. It keeps names, asks for the key alone where
      the wanted value is empty, and gives an order a limit of 100 for 0 and of 1000 for more. */
  lemma ConvertsExactly(parse: Parser, filters: Filters)
    ensures Convert(parse, filters).Err? <==> filters.requirement.Some? && parse(filters.requirement.value).None?
    ensures match Convert(parse, filters)
            case Err(e) => e == R.BadRequirement
            case Ok(c) =>
              && c.name == filters.name && c.publisherEmail == filters.publisherEmail
              && c.requirement == (if filters.requirement.None? then None else parse(filters.requirement.value))
              && c.metadata.Keys == filters.metadata.Keys
              && (forall k :: k in c.metadata ==> c.metadata[k] == if filters.metadata[k] == "" then None else Some(filters.metadata[k]))
              && (c.order.Some? <==> filters.order.Some?)
              && (c.order.Some? ==>
                    && c.order.value.reverse == filters.order.value.reverse && c.order.value.offset == filters.order.value.offset
                    && var limit := filters.order.value.limit;
                    && c.order.value.limit == if limit == 0 then 100 else if limit > 1000 then 1000 else limit)
  {
  }

  predicate NameMatches(grouped: bool, wanted: string, f: Function) {
    (grouped && f.name == wanted) || Strings.Contains(f.name, wanted)
  }

  function Matching(grouped: bool, filters: StorageFilters): Function -> bool {
    f => NameMatches(grouped, filters.name, f) && VersionMatches(filters.requirement, f)
  }

  predicate MetadataMatches(wanted: map<string, Option<string>>, f: Function) {
    forall k :: k in wanted ==>
      match wanted[k]
      case None => k in f.metadata
      case Some(v) => k in f.metadata && f.metadata[k] == v
  }

  function Retaining(filters: StorageFilters): Function -> bool {
    f => MetadataMatches(filters.metadata, f) && Strings.Contains(f.publisher.email, filters.publisherEmail)
  }

  function OrderingOf(filters: StorageFilters): (o: Ordering)
    ensures filters.order.None? ==> !o.reverse && o.offset == 0 && o.limit == 100
    ensures filters.order.Some? ==> o == filters.order.value
  {
    match filters.order
    case Some(o) => o
    case None => DEFAULT_ORDERING
  }

  ghost function Listed(fs: set<Function>, filters: StorageFilters, grouped: bool): set<Function> {
    Selection(fs, Matching(grouped, filters), grouped, Retaining(filters))
  }

  ghost predicate IsAnswer(fs: set<Function>, filters: StorageFilters, grouped: bool, page: seq<Function>) {
    var o := OrderingOf(filters);
    IsPage(Direction(Before, o.reverse), Listed(fs, filters, grouped), o.offset, o.limit, page)
  }

  /** Name, version, metadata and publisher are what the request asks for. */
  ghost predicate Wanted(filters: StorageFilters, f: Function) {
    && Strings.Contains(f.name, filters.name)
    && (filters.requirement.Some? ==> filters.requirement.value(f.version))
  }

  ghost predicate Described(filters: StorageFilters, f: Function) {
    && (forall k :: k in filters.metadata ==> k in f.metadata && (filters.metadata[k].Some? ==> f.metadata[k] == filters.metadata[k].value))
    && Strings.Contains(f.publisher.email, filters.publisherEmail)
  }

  ghost predicate Shown(fs: set<Function>, filters: StorageFilters, grouped: bool, f: Function) {
    && f in fs && Wanted(filters, f) && Described(filters, f)
    && (grouped ==> forall g :: g in fs && g.name == f.name && Wanted(filters, g) ==> !VersionLess(f.version, g.version))
  }

  /** Listed is what is stored and wanted, by a part of the name whether grouped or not, and if grouped the
      newest wanted of its name. */
  lemma ListedExactly(fs: set<Function>, filters: StorageFilters, grouped: bool, f: Function)
    ensures f in Listed(fs, filters, grouped) <==> Shown(fs, filters, grouped, f)
  {
    var matching := Matching(grouped, filters);
    forall g: Function
      ensures matching(g) <==> Wanted(filters, g)
    {
      assert g.name == filters.name ==> Strings.OccursAt(g.name, filters.name, 0);
    }
    var hits := set g | g in fs && matching(g);
    assert f in Listed(fs, filters, grouped) <==> f in (if grouped then Newest(hits) else hits) && Retaining(filters)(f);
    assert forall g :: g in hits <==> g in fs && Wanted(filters, g);
    assert MetadataMatches(filters.metadata, f)
           <==> forall k :: k in filters.metadata ==> k in f.metadata && (filters.metadata[k].Some? ==> f.metadata[k] == filters.metadata[k].value);
  }

  class MemoryStorage {
    var functions: map<(string, Version), Function>

    ghost predicate Valid()
      reads this
    {
      forall k :: k in functions ==> KeyOf(functions[k]) == k
    }

    constructor ()
      ensures Valid() && functions == map[]
    {
      functions := map[];
    }

    method Insert(f: Function, now: nat) returns (r: Result<Function, StorageError>)
      requires Valid()
      modifies this
      ensures Valid()
      ensures KeyOf(f) in old(functions) ==> functions == old(functions) && r == Err(VersionExists(f.name, old(functions)[KeyOf(f)].version))
      ensures KeyOf(f) !in old(functions) ==> r == Ok(f.(createdAt := now)) && functions == old(functions)[KeyOf(f) := f.(createdAt := now)]
    {
      if KeyOf(f) in functions {
        return Err(VersionExists(f.name, functions[KeyOf(f)].version));
      }
      var stored := f.(createdAt := now);
      functions := functions[KeyOf(f) := stored];
      r := Ok(stored);
    }

    method Get(name: string, version: Version) returns (r: Result<Function, StorageError>)
      requires Valid()
      ensures r.Ok? <==> exists f :: f in functions.Values && f.name == name && SameVersion(f.version, version)
      ensures r.Ok? ==> r.value in functions.Values && r.value.name == name && SameVersion(r.value.version, version)
      ensures r.Err? ==> r.error == NotFound
    {
      var key := (name, Release(version));
      if key in functions {
        r := Ok(functions[key]);
      } else {
        r := Err(NotFound);
      }
    }

    method List(filters: StorageFilters, grouped: bool) returns (page: seq<Function>)
      requires Valid()
      ensures IsAnswer(functions.Values, filters, grouped, page)
      ensures |page| <= (if filters.order.Some? then filters.order.value.limit else 100)
      ensures forall f :: f in page ==> Shown(functions.Values, filters, grouped, f)
      ensures forall i, j :: 0 <= i < j < |page| ==> InOrder(filters.order.Some? && filters.order.value.reverse, page[i], page[j])
    {
      var fs := Drain(functions.Values);
      var matching := Matching(grouped, filters);
      var o := OrderingOf(filters);
      var values := Groups(Select(matching, fs));
      var listing := SelectAndSort(fs, matching, grouped, values, Retaining(filters), o.reverse);
      page := Page(listing, o.offset, o.limit);
      KeysUnique(functions);
      SelectAndSortLists(fs, matching, grouped, values, Retaining(filters), o.reverse);
      PagesAreInOrder(Listed(functions.Values, filters, grouped), o.reverse, o.offset, o.limit, page);
      forall f | f in page
        ensures Shown(functions.Values, filters, grouped, f)
      {
        ListedExactly(functions.Values, filters, grouped, f);
      }
    }
  }

  lemma KeysUnique(m: map<(string, Version), Function>)
    requires forall k :: k in m ==> KeyOf(m[k]) == k
    ensures UniqueKeys(m.Values)
  {
    forall f, g | f in m.Values && g in m.Values && KeyOf(f) == KeyOf(g)
      ensures f == g
    {
      var k :| k in m && m[k] == f;
      var l :| l in m && m[l] == g;
    }
  }

  // ---------- the two implementations compared ----------

  lemma ConvertedFiltersAgree(parse: Parser, filters: Filters)
    requires Convert(parse, filters).Ok?
    ensures var converted := Convert(parse, filters).value;
            && (forall f :: S.Retaining(filters)(f) == Retaining(converted)(f))
            && (forall f :: S.NameMatches(true, filters.name, f) == NameMatches(true, filters.name, f))
  {
    var converted := Convert(parse, filters).value;
    forall f: Function
      ensures Catalog.MetadataMatches(filters.metadata, f) == MetadataMatches(converted.metadata, f)
    {
      forall k | k in filters.metadata
        ensures (k in f.metadata && (filters.metadata[k] == "" || f.metadata[k] == filters.metadata[k]))
                <==> match converted.metadata[k]
                     case None => k in f.metadata
                     case Some(v) => k in f.metadata && f.metadata[k] == v
      {
      }
      assert converted.metadata.Keys == filters.metadata.Keys;
    }
    forall f: Function
      ensures S.NameMatches(true, filters.name, f) == NameMatches(true, filters.name, f)
    {
      assert f.name == filters.name ==> Strings.OccursAt(f.name, filters.name, 0);
    }
  }

  /** Both parsers accept the requirement, and what they make of it accepts the same versions of the functions
      in question. */
  ghost predicate ParsersAgree(env: R.Env, parse: Parser, fs: set<Function>, filters: Filters) {
    && S.ParseRequirement(env, filters).Ok? && Convert(parse, filters).Ok?
    && forall f :: f in fs && Strings.Contains(f.name, filters.name) ==>
         VersionMatches(S.ParseRequirement(env, filters).value, f) == VersionMatches(Convert(parse, filters).value.requirement, f)
  }

  /** Both registries select the same functions for a grouped listing, when they read the requirement alike. */
  lemma GroupedSelectionsAgree(env: R.Env, parse: Parser, fs: set<Function>, filters: Filters)
    requires ParsersAgree(env, parse, fs, filters)
    ensures S.Listed(env, fs, filters, true) == Listed(fs, Convert(parse, filters).value, true)
  {
    ConvertedFiltersAgree(parse, filters);
    var converted := Convert(parse, filters).value;
    var a := set f | f in fs && S.Matching(true, filters.name, S.ParseRequirement(env, filters).value)(f);
    var q := set f | f in fs && Matching(true, converted)(f);
    forall f | f in fs
      ensures f in a <==> f in q
    {
      assert S.NameMatches(true, filters.name, f) == NameMatches(true, filters.name, f);
    }
    assert a == q;
  }

  /** For the same stored functions and request, the two grouped pages are the same exactly when the
      limit is one both honour, or the difference between the limits does not show. */
  lemma GroupedPagesAgree(env: R.Env, parse: Parser, fs: set<Function>, filters: Filters, avery: seq<Function>, quinn: seq<Function>)
    requires UniqueKeys(fs) && ParsersAgree(env, parse, fs, filters)
    requires var o := S.OrderingOf(filters);
             IsPage(Direction(Before, o.reverse), S.Listed(env, fs, filters, true), o.offset, o.limit, avery)
    requires IsAnswer(fs, Convert(parse, filters).value, true, quinn)
    ensures var o := S.OrderingOf(filters);
            var n := |S.Listed(env, fs, filters, true)|;
            avery == quinn <==> 1 <= o.limit <= 1000
                                || (o.limit == 0 && n <= o.offset)
                                || (o.limit > 1000 && n <= o.offset + 1000)
  {
    var o := S.OrderingOf(filters);
    var L := S.Listed(env, fs, filters, true);
    var dir := Direction(Before, o.reverse);
    GroupedSelectionsAgree(env, parse, fs, filters);
    SelectionKeepsKeysUnique(fs, S.Matching(true, filters.name, S.ParseRequirement(env, filters).value), true, S.Retaining(filters));
    BeforeWeak();
    DirectionWeak(Before, o.reverse);
    UniqueKeysNeverTie(L, o.reverse);
    var q := OrderingOf(Convert(parse, filters).value);
    assert q == Ordering(o.reverse, o.offset, ClampLimit(o.limit));
    var s :| IsListing(dir, L, s) && avery == Page(s, o.offset, o.limit);
    var t :| IsListing(dir, L, t) && quinn == Page(t, o.offset, ClampLimit(o.limit));
    ListingUnique(dir, L, s, t);
    ElementsSize(s);
    PageSizes(s, o.offset, o.limit, ClampLimit(o.limit));
  }

  lemma PageSizes<E>(s: seq<E>, offset: nat, a: nat, b: nat)
    ensures Page(s, offset, a) == Page(s, offset, b) <==> a == b || |s| <= offset + Min(a, b)
  {
    if offset < |s| {
      assert |Page(s, offset, a)| == Min(a, |s| - offset) && |Page(s, offset, b)| == Min(b, |s| - offset);
    }
  }

  /** Ungrouped, Quinn matches parts of names where Avery wants the whole name: reading the requirement alike,
      they select the same functions exactly when every function Quinn selects has the requested name. */
  lemma UngroupedSelectionsAgree(env: R.Env, parse: Parser, fs: set<Function>, filters: Filters)
    requires ParsersAgree(env, parse, fs, filters)
    ensures var quinn := Listed(fs, Convert(parse, filters).value, false);
            S.Listed(env, fs, filters, false) == quinn <==> forall f :: f in quinn ==> f.name == filters.name
  {
    ConvertedFiltersAgree(parse, filters);
    forall f: Function
      ensures f.name == filters.name ==> Strings.Contains(f.name, filters.name)
    {
      assert f.name == filters.name ==> Strings.OccursAt(f.name, filters.name, 0);
    }
  }

  /** Without that, a grouped selection differs as soon as the parsers disagree about the one version of a
      function whose name matches and which both would show. */
  lemma DisagreeingParsersShow(env: R.Env, parse: Parser, fs: set<Function>, filters: Filters, f: Function)
    requires S.ParseRequirement(env, filters).Ok? && Convert(parse, filters).Ok?
    requires f in fs && (forall g :: g in fs && g.name == f.name ==> g == f)
    requires Strings.Contains(f.name, filters.name) && Retained(filters, f)
    ensures (f in S.Listed(env, fs, filters, true) <==> f in Listed(fs, Convert(parse, filters).value, true))
            <==> VersionMatches(S.ParseRequirement(env, filters).value, f) == VersionMatches(Convert(parse, filters).value.requirement, f)
  {
    ConvertedFiltersAgree(parse, filters);
    VersionLessWeak();
    assert S.Retaining(filters)(f) && Retaining(Convert(parse, filters).value)(f);
    assert S.NameMatches(true, filters.name, f) && NameMatches(true, filters.name, f);
  }

  /** Reading page after page, in either direction, reads the whole listing exactly once. */
  lemma {:induction false} PagesCoverListing(S: set<Function>, reverse: bool, limit: nat, pages: seq<seq<Function>>)
    requires UniqueKeys(S) && |pages| * limit >= |S|
    requires forall i :: 0 <= i < |pages| ==> IsPage(Direction(Before, reverse), S, i * limit, limit, pages[i])
    ensures IsListing(Direction(Before, reverse), S, Flatten(pages))
  {
    var dir := Direction(Before, reverse);
    BeforeWeak();
    DirectionWeak(Before, reverse);
    var s := ListingExists(dir, S);
    ElementsSize(s);
    forall i | 0 <= i < |pages|
      ensures pages[i] == Page(s, i * limit, limit)
    {
      assert IsPage(dir, S, i * limit, limit, Page(s, i * limit, limit));
      PageDetermined(S, reverse, i * limit, limit, pages[i], Page(s, i * limit, limit));
    }
    PagesFlatten(s, limit, pages);
    PagesConcatenate(s, limit, |pages|);
  }

  lemma {:induction false} PagesFlatten(s: seq<Function>, limit: nat, pages: seq<seq<Function>>)
    requires forall i :: 0 <= i < |pages| ==> pages[i] == Page(s, i * limit, limit)
    ensures Flatten(pages) == Pages(s, limit, |pages|)
  {
    if pages != [] {
      var n := |pages| - 1;
      PagesFlatten(s, limit, pages[..n]);
      assert pages == pages[..n] + [pages[n]];
      FlattenAppend(pages[..n], pages[n]);
    }
  }
}

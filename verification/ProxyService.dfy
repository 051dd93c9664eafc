/** The proxy's `list` and `get`, step by step. */
module ProxyService {
  import opened Listing
  import opened Results
  import opened Proxy
  import opened ProxyConflicts
  import opened ProxyListing
  import opened Pushdown

  datatype Lookup = Found(registry: string, found: Function) | Missing | Broken(status: string)

  function Replies(fetched: seq<Fetched>): (r: seq<Reply>)
    requires forall f :: f in fetched ==> f.Answered?
    ensures |r| == |fetched|
    ensures forall i :: 0 <= i < |fetched| ==> r[i] == fetched[i].reply
  {
    if fetched == [] then [] else [fetched[0].reply] + Replies(fetched[1..])
  }

  predicate FirstFailure(fetched: seq<Fetched>, i: int) {
    && 0 <= i < |fetched| && fetched[i].Failed?
    && forall j :: 0 <= j < i ==> fetched[j].Answered?
  }

  method CollectReplies(fetched: seq<Fetched>) returns (r: Result<seq<Reply>, Status>)
    ensures (forall f :: f in fetched ==> f.Answered?) ==> r == Ok(Replies(fetched))
    ensures r.Err? ==> exists i :: FirstFailure(fetched, i) && r.error == Upstream(fetched[i].status)
    ensures r.Ok? ==> forall f :: f in fetched ==> f.Answered?
  {
    var replies := [];
    for i := 0 to |fetched|
      invariant |replies| == i
      invariant forall j :: 0 <= j < i ==> fetched[j].Answered? && replies[j] == fetched[j].reply
    {
      match fetched[i]
      case Failed(status) =>
        assert fetched[i] in fetched;
        assert FirstFailure(fetched, i);
        return Err(Upstream(status));
      case Answered(reply) => replies := replies + [reply];
    }
    assert replies == Replies(fetched);
    r := Ok(replies);
  }

  method FoldInto(cfg: Config, kind: ListKind, fs: seq<Function>) returns (r: Result<map<string, Function>, ProxyError>)
    ensures r == Merge(cfg, kind, fs)
  {
    var insert := InsertFunction(cfg, kind);
    var functions := map[];
    for i := 0 to |fs|
      invariant TryFold(insert, fs, i) == Ok(functions)
    {
      var inserted := insert(functions, fs[i]);
      if inserted.Err? {
        FoldStopsAt(insert, fs, i + 1, |fs|);
        return inserted;
      }
      functions := inserted.value;
    }
    r := Ok(functions);
  }

  lemma {:induction false} FoldStopsAt(insert: Insert, fs: seq<Function>, n: nat, p: nat)
    requires n <= p <= |fs| && TryFold(insert, fs, n).Err?
    ensures TryFold(insert, fs, p) == TryFold(insert, fs, n)
  {
    if n < p {
      FoldStopsAt(insert, fs, n, p - 1);
    }
  }

  /** A registry answered with a function of which `f` is the marked copy. */
  ghost predicate Listed(fetched: seq<Fetched>, f: Function) {
    exists i, p :: 0 <= i < |fetched| && fetched[i].Answered? && 0 <= p < |fetched[i].reply.functions|
                   && MarkedFrom(fetched[i].reply.registry, fetched[i].reply.functions[p], f)
  }

  lemma MergedAreListed(cfg: Config, kind: ListKind, fetched: seq<Fetched>, f: Function)
    requires (forall g :: g in fetched ==> g.Answered?) && MergeReplies(cfg, kind, Replies(fetched)).Ok?
    requires f in MergeReplies(cfg, kind, Replies(fetched)).value.Values
    ensures Listed(fetched, f)
  {
    var replies := Replies(fetched);
    var m := MergeReplies(cfg, kind, replies).value;
    MergeKeepsOnePerKey(cfg, kind, Flatten(Lists(replies)));
    var k :| k in m && m[k] == f;
    FlattenMembers(Lists(replies));
    var i :| 0 <= i < |replies| && f in Lists(replies)[i];
    var p :| 0 <= p < |Lists(replies)[i]| && Lists(replies)[i][p] == f;
    TagMarks(replies[i].registry, replies[i].functions[p]);
  }

  lemma ShownAreListed(cfg: Config, kind: ListKind, fetched: seq<Fetched>, o: Ordering, functions: seq<Function>)
    requires (forall g :: g in fetched ==> g.Answered?) && MergeReplies(cfg, kind, Replies(fetched)).Ok?
    requires IsListing(Direction(ListOrder(cfg), o.reverse), MergeReplies(cfg, kind, Replies(fetched)).value.Values, functions)
    ensures var shown := Page(functions, o.offset, o.limit);
            && |shown| <= o.limit
            && (forall f :: f in shown ==> Listed(fetched, f))
            && forall i, j :: 0 <= i < j < |shown| ==> InOrder(cfg, o.reverse, shown[i], shown[j])
  {
    PageShows(functions, o.offset, o.limit);
    forall f | f in functions
      ensures Listed(fetched, f)
    {
      assert f in Elements(functions);
      MergedAreListed(cfg, kind, fetched, f);
    }
  }

  ghost predicate NoColons(fetched: seq<Fetched>) {
    forall i, p :: 0 <= i < |fetched| && fetched[i].Answered? && 0 <= p < |fetched[i].reply.functions| ==>
      ':' !in fetched[i].reply.functions[p].name
  }

  /** `ProxyRegistry::list`: ask every source, merge, sort again, and page again. */
  method List(cfg: Config, kind: ListKind, fetched: seq<Fetched>, order: Option<Ordering>)
    returns (r: Result<seq<Function>, Status>)
    ensures (exists f :: f in fetched && f.Failed?) <==> r.Err? && r.error.Upstream?
    ensures r.Err? && r.error.Upstream? ==> exists i :: FirstFailure(fetched, i) && r.error.status == fetched[i].status
    ensures (forall f :: f in fetched ==> f.Answered?) ==>
              var o := if order.Some? then order.value else Ordering(false, 0, 100);
              match MergeReplies(cfg, kind, Replies(fetched))
              case Err(e) => r == Err(AlreadyExists(e))
              case Ok(m) => r.Ok? && IsPage(Direction(ListOrder(cfg), o.reverse), m.Values, o.offset, o.limit, r.value)
    ensures r.Ok? ==> forall f :: f in r.value ==> Listed(fetched, f)
    ensures r.Ok? ==> |r.value| <= (if order.Some? then order.value.limit else 100)
    ensures r.Ok? ==> forall i, j :: 0 <= i < j < |r.value| ==> InOrder(cfg, order.Some? && order.value.reverse, r.value[i], r.value[j])
    ensures r.Err? && r.error.AlreadyExists? && (kind.Versions? ==> NoColons(fetched)) ==>
              && (forall f :: f in fetched ==> f.Answered?)
              && exists a, p, b, q :: Blames(kind, Replies(fetched), a, p, b, q, r.error.error)
  {
    var collected := CollectReplies(fetched);
    if collected.Err? {
      return Err(collected.error);
    }
    var folded := FoldInto(cfg, kind, Flatten(Lists(collected.value)));
    if folded.Err? {
      if kind.Versions? && NoColons(fetched) {
        ColonlessReplies(fetched);
      }
      if kind.Versions? ==> NoColons(fetched) {
        FailureBlames(cfg, kind, collected.value);
      }
      return Err(AlreadyExists(folded.error));
    }
    var functions := Drain(folded.value.Values);
    OrdersWeak(cfg);
    SortByLists(ListOrder(cfg), functions);
    functions := SortBy(ListOrder(cfg), functions);
    var o := if order.Some? then order.value else DEFAULT_ORDERING;
    if o.reverse {
      ReversedListing(ListOrder(cfg), folded.value.Values, functions);
      functions := Reversed(functions);
    }
    r := Ok(Page(functions, o.offset, o.limit));
    ShownAreListed(cfg, kind, fetched, o, functions);
  }

  lemma ColonlessReplies(fetched: seq<Fetched>)
    requires (forall f :: f in fetched ==> f.Answered?) && NoColons(fetched)
    ensures forall f :: f in Flatten(Lists(Replies(fetched))) ==> ':' !in f.name
  {
    var replies := Replies(fetched);
    FlattenMembers(Lists(replies));
    forall f | f in Flatten(Lists(replies))
      ensures ':' !in f.name
    {
      var i :| 0 <= i < |replies| && f in Lists(replies)[i];
      var p :| 0 <= p < |Lists(replies)[i]| && Lists(replies)[i][p] == f;
    }
  }

  /** The functions that were found, each tagged with its registry, in source order. */
  function FoundIn(lookups: seq<Lookup>): seq<Function> {
    if lookups == [] then []
    else (if lookups[0].Found? then [Tag(lookups[0].registry, lookups[0].found)] else []) + FoundIn(lookups[1..])
  }

  lemma {:induction false} FoundInPrefix(lookups: seq<Lookup>, n: nat)
    requires n < |lookups|
    ensures FoundIn(lookups[..n + 1])
            == FoundIn(lookups[..n]) + if lookups[n].Found? then [Tag(lookups[n].registry, lookups[n].found)] else []
  {
    if n > 0 {
      assert lookups[..n + 1][1..] == lookups[1..][..n] && lookups[..n][1..] == lookups[1..][..n - 1];
      FoundInPrefix(lookups[1..], n - 1);
    }
  }

  /** What was found at `k` is from the lookup `i`. */
  lemma {:induction false} FoundFrom(lookups: seq<Lookup>, k: nat) returns (i: nat)
    requires k < |FoundIn(lookups)|
    ensures i < |lookups| && lookups[i].Found? && MarkedFrom(lookups[i].registry, lookups[i].found, FoundIn(lookups)[k])
    ensures RegistryOf(FoundIn(lookups)[k]) == lookups[i].registry
  {
    if lookups[0].Found? && k == 0 {
      i := 0;
      TagMarks(lookups[0].registry, lookups[0].found);
    } else {
      i := FoundFrom(lookups[1..], if lookups[0].Found? then k - 1 else k);
      i := i + 1;
    }
  }

  lemma {:induction false} FoundPair(lookups: seq<Lookup>, k: nat, l: nat) returns (i: nat, j: nat)
    requires k < l < |FoundIn(lookups)|
    ensures i < j < |lookups| && lookups[i].Found? && lookups[j].Found?
    ensures RegistryOf(FoundIn(lookups)[k]) == lookups[i].registry && RegistryOf(FoundIn(lookups)[l]) == lookups[j].registry
    ensures MarkedFrom(lookups[j].registry, lookups[j].found, FoundIn(lookups)[l])
  {
    if lookups[0].Found? && k == 0 {
      TagMarks(lookups[0].registry, lookups[0].found);
      j := FoundFrom(lookups[1..], l - 1);
      i, j := 0, j + 1;
    } else {
      var d := if lookups[0].Found? then 1 else 0;
      i, j := FoundPair(lookups[1..], k - d, l - d);
      i, j := i + 1, j + 1;
    }
  }

  lemma {:induction false} NothingFound(lookups: seq<Lookup>)
    requires FoundIn(lookups) == [] && forall i :: 0 <= i < |lookups| ==> !lookups[i].Broken?
    ensures forall i :: 0 <= i < |lookups| ==> lookups[i].Missing?
  {
    if lookups != [] {
      NothingFound(lookups[1..]);
      assert forall i :: 0 < i < |lookups| ==> lookups[i] == lookups[1..][i - 1];
    }
  }

  predicate FirstBroken(lookups: seq<Lookup>, i: int) {
    && 0 <= i < |lookups| && lookups[i].Broken?
    && forall j :: 0 <= j < i ==> !lookups[j].Broken?
  }

  /** `ProxyRegistry::get`: a source that does not have the function is ignored, any other
      failure is passed on, and the answers are merged by name and version. */
  method Get(cfg: Config, lookups: seq<Lookup>) returns (r: Result<Function, Status>)
    ensures (exists l :: l in lookups && l.Broken?) <==> r.Err? && r.error.Upstream?
    ensures r.Err? && r.error.Upstream? ==> exists i :: FirstBroken(lookups, i) && r.error.status == lookups[i].status
    ensures (forall l :: l in lookups ==> !l.Broken?) ==>
              match Merge(cfg, Versions, FoundIn(lookups))
              case Err(e) => r == Err(AlreadyExists(e))
              case Ok(m) => if m == map[] then r == Err(NotFound) else r.Ok? && r.value in m.Values
    ensures r.Ok? ==> exists i :: 0 <= i < |lookups| && lookups[i].Found? && MarkedFrom(lookups[i].registry, lookups[i].found, r.value)
    ensures r == Err(NotFound) <==> forall i :: 0 <= i < |lookups| ==> lookups[i].Missing?
    ensures r.Err? && r.error.AlreadyExists? ==>
              exists i, j :: 0 <= i < j < |lookups| && lookups[i].Found? && lookups[j].Found?
                             && r.error.error.ConflictingFunctions?
                             && r.error.error.incoming == lookups[j].registry && r.error.error.existing == lookups[i].registry
                             && r.error.error.key == lookups[j].found.name + ":" + lookups[j].found.version
  {
    var found := [];
    for i := 0 to |lookups|
      invariant found == FoundIn(lookups[..i])
      invariant forall j :: 0 <= j < i ==> !lookups[j].Broken?
    {
      FoundInPrefix(lookups, i);
      match lookups[i]
      case Broken(status) =>
        assert FirstBroken(lookups, i);
        return Err(Upstream(status));
      case Missing =>
      case Found(registry, f) => found := found + [Tag(registry, f)];
    }
    assert lookups[..|lookups|] == lookups;
    var folded := FoldInto(cfg, Versions, found);
    if folded.Err? {
      var i, j := ReportedPair(cfg, Versions, found);
      var a, b := FoundPair(lookups, i, j);
      return Err(AlreadyExists(folded.error));
    }
    var m := folded.value;
    MergeKeepsOnePerKey(cfg, Versions, found);
    if m == map[] {
      NothingFound(lookups);
      return Err(NotFound);
    }
    var key :| key in m;
    var p :| 0 <= p < |found| && found[p] == m[key];
    var a := FoundFrom(lookups, p);
    r := Ok(m[key]);
  }

  /** When every answer carries the requested name and version, the source with the highest priority
      wins, and with conflicts as errors only a single answer is accepted. */
  lemma GetPrefersFirst(cfg: Config, fs: seq<Function>)
    requires fs != [] && forall f :: f in fs ==> VersionKey(f) == VersionKey(fs[0])
    ensures Merge(cfg, Versions, fs).Ok? <==> cfg.conflict.UsePriority? || |fs| == 1
    ensures Merge(cfg, Versions, fs).Ok? ==> Merge(cfg, Versions, fs).value.Values == {fs[0]}
  {
    VersionMergeCharacterized(cfg, fs);
    SingleKeyMerge(VersionKey, fs);
    if Merge(cfg, Versions, fs).Ok? {
      OnlyFirstKept(VersionKey, fs, Merge(cfg, Versions, fs).value);
    }
  }

  lemma SingleKeyMerge(key: Function -> string, fs: seq<Function>)
    requires fs != [] && forall f :: f in fs ==> key(f) == key(fs[0])
    ensures KeyRepeats(key, fs, |fs|) <==> |fs| > 1
  {
    if |fs| > 1 {
      assert fs[1] in fs;
      assert key(fs[0]) == key(fs[1]);
    }
  }

  lemma OnlyFirstKept(key: Function -> string, fs: seq<Function>, m: map<string, Function>)
    requires fs != [] && (forall f :: f in fs ==> key(f) == key(fs[0])) && KeepsFirst(key, fs, |fs|, m)
    ensures m.Values == {fs[0]}
  {
    forall k | k in m
      ensures m[k] == fs[0]
    {
      assert IsFirst(key, fs, |fs|, k, m[k]);
      var i :| i < |fs| && FirstOfKey(key, fs, k, i) && fs[i] == m[k];
      assert fs[i] in fs;
      assert i == 0;
    }
    assert m[key(fs[0])] in m.Values;
  }
}

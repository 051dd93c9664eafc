/** Limit pushdown and failures: when the merge of what the sources serve fails although the complete merge does
not, and the other way round.
*/
module ProxyConflicts {
  import opened Listing
  import opened Order
  import opened Pushdown
  import opened Results
  import opened Semver
  import opened Proxy
  import opened ProxyListing

  // ---------- places in the sources ----------

  ghost predicate Place(lists: seq<seq<Function>>, a: int, p: int) {
    0 <= a < |lists| && 0 <= p < |lists[a]|
  }

  /** Where entry `p` of source `a` is among all entries. */
  ghost function FlatIndex(lists: seq<seq<Function>>, a: int, p: int): nat
    requires Place(lists, a, p)
    decreases a
  {
    if a == 0 then p else |lists[0]| + FlatIndex(lists[1..], a - 1, p)
  }

  lemma {:induction false} FlatAt(lists: seq<seq<Function>>, a: int, p: int)
    requires Place(lists, a, p)
    ensures FlatIndex(lists, a, p) < |Flatten(lists)| && Flatten(lists)[FlatIndex(lists, a, p)] == lists[a][p]
    decreases a
  {
    if a > 0 {
      FlatAt(lists[1..], a - 1, p);
    }
  }

  lemma {:induction false} FlatFind(lists: seq<seq<Function>>, i: nat) returns (a: nat, p: nat)
    requires i < |Flatten(lists)|
    ensures Place(lists, a, p) && FlatIndex(lists, a, p) == i
  {
    if i < |lists[0]| {
      a, p := 0, i;
    } else {
      a, p := FlatFind(lists[1..], i - |lists[0]|);
      a := a + 1;
    }
  }

  /** Sources come one after the other. */
  lemma {:induction false} FlatOrder(lists: seq<seq<Function>>, a: int, p: int, b: int, q: int)
    requires Place(lists, a, p) && Place(lists, b, q)
    ensures FlatIndex(lists, a, p) < FlatIndex(lists, b, q) <==> a < b || (a == b && p < q)
    decreases a
  {
    if a > 0 && b > 0 {
      FlatOrder(lists[1..], a - 1, p, b - 1, q);
    }
  }

  /** A place among the first `limit` of each source. */
  ghost predicate ServedPlace(lists: seq<seq<Function>>, limit: nat, a: int, p: int) {
    Place(lists, a, p) && p < limit
  }

  lemma ServedPlaces(lists: seq<seq<Function>>, limit: nat, a: int, p: int)
    ensures Place(Windows(lists, 0, limit), a, p) <==> ServedPlace(lists, limit, a, p)
    ensures ServedPlace(lists, limit, a, p) ==> Windows(lists, 0, limit)[a][p] == lists[a][p]
  {
    WindowsAt(lists, 0, limit);
  }

  /** No source lists a name twice. */
  ghost predicate NamesOnce(lists: seq<seq<Function>>) {
    forall a, p, q :: Place(lists, a, p) && Place(lists, a, q) && p != q ==> lists[a][p].name != lists[a][q].name
  }

  lemma SortedNamesOnce(cfg: Config, replies: seq<Reply>, reverse: bool)
    requires forall r :: r in replies ==> SourceSorted(cfg, Functions, reverse, r.functions)
    ensures NamesOnce(Lists(replies))
  {
    var lists := Lists(replies);
    var before := Direction(ByName, reverse);
    SourcesSorted(cfg, Functions, replies, reverse);
    StringLessTotal();
    forall a, p, q | Place(lists, a, p) && Place(lists, a, q) && p < q
      ensures lists[a][p].name != lists[a][q].name
    {
      var x, y := lists[a][p], lists[a][q];
      assert before(x, y);
      assert StringLess(x.name, y.name) || StringLess(y.name, x.name);
    }
  }

  // ---------- what a failure names ----------

  /** The failure is about the entry `q` of source `b` meeting the entry `p` of source `a` before it. */
  ghost predicate Blames(kind: ListKind, replies: seq<Reply>, a: int, p: int, b: int, q: int, e: ProxyError) {
    && 0 <= a <= b < |replies| && 0 <= p < |replies[a].functions| && 0 <= q < |replies[b].functions| && (a == b ==> p < q)
    && var existing, incoming := replies[a].functions[p], replies[b].functions[q];
    && existing.name == incoming.name && (kind.Versions? ==> existing.version == incoming.version)
    && match e
       case VersionParseError(version) => kind.Functions? && version == incoming.version
       case ConflictingFunctions(key, added, known) =>
         && key == (if kind.Functions? then incoming.name else incoming.name + ":" + incoming.version)
         && added == replies[b].registry && known == replies[a].registry
  }

  /** What the merge reports names the sources of two entries for the same key, the later one first. */
  lemma FailureBlames(cfg: Config, kind: ListKind, replies: seq<Reply>)
    requires kind.Versions? ==> forall f :: f in Flatten(Lists(replies)) ==> ':' !in f.name
    requires MergeReplies(cfg, kind, replies).Err?
    ensures exists a, p, b, q :: Blames(kind, replies, a, p, b, q, MergeReplies(cfg, kind, replies).error)
  {
    var lists := Lists(replies);
    var all := Flatten(lists);
    var e := MergeReplies(cfg, kind, replies).error;
    var i, j := ReportedPair(cfg, kind, all);
    var a, p := FlatFind(lists, i);
    var b, q := FlatFind(lists, j);
    FlatAt(lists, a, p);
    FlatAt(lists, b, q);
    FlatOrder(lists, a, p, b, q);
    if kind.Versions? {
      VersionKeyInjective(all[i], all[j]);
    }
    TagMarks(replies[a].registry, replies[a].functions[p]);
    TagMarks(replies[b].registry, replies[b].functions[q]);
    assert Blames(kind, replies, a, p, b, q, e);
  }

  lemma ReportedPair(cfg: Config, kind: ListKind, all: seq<Function>) returns (i: int, j: int)
    requires Merge(cfg, kind, all).Err?
    ensures 0 <= i < j < |all| && KeyOf(kind)(all[i]) == KeyOf(kind)(all[j])
    ensures var e := Merge(cfg, kind, all).error;
            (kind.Functions? && e == VersionParseError(all[j].version)) || e == Conflict(all[j], all[i], KeyOf(kind)(all[j]))
  {
    var e := Merge(cfg, kind, all).error;
    if kind.Functions? {
      FunctionMergeCharacterized(cfg, all);
      i, j :| j < |all| && FirstClash(cfg, all, i, j) && e == ClashError(cfg, all[j], all[i]);
      assert Clash(cfg, all, i, j);
    } else {
      VersionMergeCharacterized(cfg, all);
      i, j :| j < |all| && FirstRepeat(VersionKey, all, i, j) && e == Conflict(all[j], all[i], VersionKey(all[j]));
    }
  }

  // ---------- functions ----------

  /** The version at a place is at most `v`, or below it. */
  ghost predicate AtMost(cfg: Config, f: Function, v: Version) {
    cfg.parse(f.version).Some? && !VersionLess(v, cfg.parse(f.version).value)
  }

  ghost predicate Below(cfg: Config, f: Function, v: Version) {
    cfg.parse(f.version).Some? && VersionLess(cfg.parse(f.version).value, v)
  }

  /** Source `b` serves the version that source `a` is the first to serve, and that is the highest of the
      name served until then. */
  ghost predicate ServedTwice(cfg: Config, lists: seq<seq<Function>>, limit: nat, a: int, p: int, b: int, q: int) {
    && ServedPlace(lists, limit, a, p) && ServedPlace(lists, limit, b, q) && a < b
    && var f, g := lists[a][p], lists[b][q];
    && f.name == g.name
    && cfg.parse(f.version).Some? && cfg.parse(g.version).Some?
    && var v := cfg.parse(f.version).value;
    && SameVersion(v, cfg.parse(g.version).value)
    && (forall c, r :: ServedPlace(lists, limit, c, r) && c < b && lists[c][r].name == f.name ==> AtMost(cfg, lists[c][r], v))
    && (forall c, r :: ServedPlace(lists, limit, c, r) && c < a && lists[c][r].name == f.name ==> Below(cfg, lists[c][r], v))
  }

  /** An earlier source than `b` lists a higher version of the function, or one nobody can read, beyond the limit. */
  ghost predicate HiddenBefore(cfg: Config, lists: seq<seq<Function>>, limit: nat, f: Function, b: int) {
    exists c, r :: Place(lists, c, r) && c < b && r >= limit && lists[c][r].name == f.name
                   && (cfg.parse(lists[c][r].version).None? || !AtMost(cfg, lists[c][r], VersionOf(cfg, f)))
  }

  function VersionOf(cfg: Config, f: Function): Version {
    match cfg.parse(f.version) case Some(v) => v case None => UNREADABLE
  }

  /** A merge that succeeds has no late unreadable version, whatever is done about conflicts. */
  lemma MergedHasNoLateUnreadable(cfg: Config, fs: seq<Function>, i: int, j: int)
    requires Merge(cfg, Functions, fs).Ok?
    ensures !LateUnreadable(cfg, fs, i, j)
  {
    FunctionMergeCharacterized(cfg, fs);
    if 0 <= i < j < |fs| && fs[i].name == fs[j].name {
      var w := WinnerBefore(cfg, fs, j, i);
      assert !Clash(cfg, fs, w, j);
    }
  }

  /** Before an entry whose name has occurred there is a winner of that name. */
  lemma WinnerBefore(cfg: Config, fs: seq<Function>, j: int, i: int) returns (w: int)
    requires Merge(cfg, Functions, fs).Ok? && 0 <= i < j < |fs| && fs[i].name == fs[j].name
    ensures WinnerAt(cfg, fs, j, fs[j].name, w)
  {
    FoldOkPrefix(cfg, fs, j, |fs|);
    FunctionMergeUpTo(cfg, fs, j);
    var m := TryFold(InsertNewest(cfg), fs, j).value;
    assert IsWinner(cfg, fs, j, fs[j].name, m[fs[j].name]);
    w :| WinnerAt(cfg, fs, j, fs[j].name, w);
  }

  /** When two served places clash, their version is served twice. */
  lemma ClashServedTwice(cfg: Config, lists: seq<seq<Function>>, limit: nat, a: int, p: int, b: int, q: int)
    requires cfg.conflict.Error? && NamesOnce(lists)
    requires ServedPlace(lists, limit, a, p) && ServedPlace(lists, limit, b, q)
    requires Place(Windows(lists, 0, limit), a, p) && Place(Windows(lists, 0, limit), b, q)
    requires var w := Windows(lists, 0, limit); Clash(cfg, Flatten(w), FlatIndex(w, a, p), FlatIndex(w, b, q))
    requires cfg.parse(lists[b][q].version).Some?
    ensures ServedTwice(cfg, lists, limit, a, p, b, q)
  {
    var w := Windows(lists, 0, limit);
    var all := Flatten(w);
    var i, j := FlatIndex(w, a, p), FlatIndex(w, b, q);
    ServedPlaces(lists, limit, a, p);
    ServedPlaces(lists, limit, b, q);
    FlatAt(w, a, p);
    FlatAt(w, b, q);
    FlatOrder(w, a, p, b, q);
    assert all[i] == lists[a][p] && all[j] == lists[b][q] && i < j;
    assert a < b;
    var v := cfg.parse(all[i].version).value;
    forall c, r | ServedPlace(lists, limit, c, r) && lists[c][r].name == lists[a][p].name
      ensures c < b ==> AtMost(cfg, lists[c][r], v)
      ensures c < a ==> Below(cfg, lists[c][r], v)
    {
      ServedPlaces(lists, limit, c, r);
      FlatAt(w, c, r);
      FlatOrder(w, c, r, b, q);
      FlatOrder(w, c, r, a, p);
      assert all[FlatIndex(w, c, r)] == lists[c][r];
    }
  }

  /** And the other way round. */
  lemma ServedTwiceClashes(cfg: Config, lists: seq<seq<Function>>, limit: nat, a: int, p: int, b: int, q: int)
    requires cfg.conflict.Error? && NamesOnce(lists) && ServedTwice(cfg, lists, limit, a, p, b, q)
    requires Place(Windows(lists, 0, limit), a, p) && Place(Windows(lists, 0, limit), b, q)
    ensures var w := Windows(lists, 0, limit); Clash(cfg, Flatten(w), FlatIndex(w, a, p), FlatIndex(w, b, q))
  {
    var w := Windows(lists, 0, limit);
    var all := Flatten(w);
    var i, j := FlatIndex(w, a, p), FlatIndex(w, b, q);
    ServedPlaces(lists, limit, a, p);
    ServedPlaces(lists, limit, b, q);
    FlatAt(w, a, p);
    FlatAt(w, b, q);
    FlatOrder(w, a, p, b, q);
    assert all[i] == lists[a][p] && all[j] == lists[b][q] && i < j;
    var v := cfg.parse(all[i].version).value;
    forall k | 0 <= k < j && all[k].name == all[j].name
      ensures cfg.parse(all[k].version).Some? && !VersionLess(v, cfg.parse(all[k].version).value)
      ensures k < i ==> VersionLess(cfg.parse(all[k].version).value, v)
    {
      var c, r := FlatFind(w, k);
      ServedPlaces(lists, limit, c, r);
      FlatAt(w, c, r);
      FlatOrder(w, c, r, b, q);
      FlatOrder(w, c, r, a, p);
      assert all[k] == lists[c][r];
      assert c == b ==> r == q;
      assert c == a ==> r == p;
      assert c < b;
      assert AtMost(cfg, lists[c][r], v);
      assert k < i ==> c < a && Below(cfg, lists[c][r], v);
    }
    assert WinnerAt(cfg, all, j, all[j].name, i);
  }

  /** If the complete merge succeeds, a version served twice is not the highest: an earlier source has a
      higher one beyond the limit, or one that nobody can read. */
  lemma ServedTwiceHides(cfg: Config, lists: seq<seq<Function>>, limit: nat, a: int, p: int, b: int, q: int)
    requires cfg.conflict.Error? && Merge(cfg, Functions, Flatten(lists)).Ok?
    requires NamesOnce(lists) && ServedTwice(cfg, lists, limit, a, p, b, q)
    ensures HiddenBefore(cfg, lists, limit, lists[a][p], b)
  {
    var all := Flatten(lists);
    var i, j := FlatIndex(lists, a, p), FlatIndex(lists, b, q);
    FlatAt(lists, a, p);
    FlatAt(lists, b, q);
    FlatOrder(lists, a, p, b, q);
    var k := WinnerBefore(cfg, all, j, i);
    FunctionMergeCharacterized(cfg, all);
    assert !Clash(cfg, all, k, j);
    var c, r := FlatFind(lists, k);
    FlatAt(lists, c, r);
    FlatOrder(lists, c, r, b, q);
    assert all[k] == lists[c][r] && all[i] == lists[a][p];
    assert c == b ==> r == q;
    var v := VersionOf(cfg, lists[a][p]);
    if cfg.parse(all[k].version).Some? {
      HigherThanBoth(cfg.parse(all[k].version).value, v, VersionOf(cfg, lists[b][q]));
    }
    assert cfg.parse(lists[c][r].version).None? || !AtMost(cfg, lists[c][r], v);
    assert !ServedPlace(lists, limit, c, r);
  }

  lemma HigherThanBoth(u: Version, v: Version, w: Version)
    requires SameVersion(v, w) && !SameVersion(u, w) && !VersionLess(u, v)
    ensures VersionLess(v, u)
  {
    VersionTrichotomy(u, v);
  }

  /** Two sources serve the name, and the later one a version nobody can read. */
  ghost predicate ServedLate(cfg: Config, lists: seq<seq<Function>>, limit: nat, a: int, p: int, b: int, q: int) {
    && ServedPlace(lists, limit, a, p) && ServedPlace(lists, limit, b, q) && a < b
    && lists[a][p].name == lists[b][q].name && cfg.parse(lists[b][q].version).None?
  }

  /** Two places that make the merge of what is served within the limit fail. */
  ghost predicate FailsAt(cfg: Config, lists: seq<seq<Function>>, limit: nat, a: int, p: int, b: int, q: int) {
    ServedLate(cfg, lists, limit, a, p, b, q) || (cfg.conflict.Error? && ServedTwice(cfg, lists, limit, a, p, b, q))
  }

  ghost predicate Fails(cfg: Config, lists: seq<seq<Function>>, limit: nat) {
    exists a, p, b, q :: FailsAt(cfg, lists, limit, a, p, b, q)
  }

  lemma ClashFailsAt(cfg: Config, lists: seq<seq<Function>>, limit: nat, i: int, j: int)
    requires NamesOnce(lists) && Clash(cfg, Flatten(Windows(lists, 0, limit)), i, j)
    ensures Fails(cfg, lists, limit)
  {
    var w := Windows(lists, 0, limit);
    var a, p := FlatFind(w, i);
    var b, q := FlatFind(w, j);
    FlatAt(w, a, p);
    FlatAt(w, b, q);
    FlatOrder(w, a, p, b, q);
    ServedPlaces(lists, limit, a, p);
    ServedPlaces(lists, limit, b, q);
    if cfg.parse(lists[b][q].version).Some? {
      ClashServedTwice(cfg, lists, limit, a, p, b, q);
    }
    assert FailsAt(cfg, lists, limit, a, p, b, q);
  }

  lemma FailsAtFails(cfg: Config, lists: seq<seq<Function>>, limit: nat, a: int, p: int, b: int, q: int)
    requires NamesOnce(lists) && FailsAt(cfg, lists, limit, a, p, b, q)
    ensures Merge(cfg, Functions, Flatten(Windows(lists, 0, limit))).Err?
  {
    var w := Windows(lists, 0, limit);
    ServedPlaces(lists, limit, a, p);
    ServedPlaces(lists, limit, b, q);
    if ServedLate(cfg, lists, limit, a, p, b, q) {
      FlatAt(w, a, p);
      FlatAt(w, b, q);
      FlatOrder(w, a, p, b, q);
      assert LateUnreadable(cfg, Flatten(w), FlatIndex(w, a, p), FlatIndex(w, b, q));
      if Merge(cfg, Functions, Flatten(w)).Ok? {
        MergedHasNoLateUnreadable(cfg, Flatten(w), FlatIndex(w, a, p), FlatIndex(w, b, q));
      }
    } else {
      ServedTwiceClashes(cfg, lists, limit, a, p, b, q);
      FunctionMergeCharacterized(cfg, Flatten(w));
    }
  }

  /** Functions served within a limit fail to merge exactly if a later source serves a version of a known name
      that nobody can read or, with conflicts as errors, the highest version served until then. */
  lemma ServedFailsExactly(cfg: Config, replies: seq<Reply>, reverse: bool, limit: nat)
    requires forall r :: r in replies ==> SourceSorted(cfg, Functions, reverse, r.functions)
    ensures MergeReplies(cfg, Functions, Served(replies, 0, limit)).Err? <==> Fails(cfg, Lists(replies), limit)
  {
    var lists := Lists(replies);
    var w := Windows(lists, 0, limit);
    ServedLists(replies, 0, limit);
    SortedNamesOnce(cfg, replies, reverse);
    FunctionMergeCharacterized(cfg, Flatten(w));
    if i, j :| Clash(cfg, Flatten(w), i, j) {
      ClashFailsAt(cfg, lists, limit, i, j);
    }
    if a, p, b, q :| FailsAt(cfg, lists, limit, a, p, b, q) {
      FailsAtFails(cfg, lists, limit, a, p, b, q);
    }
  }

  /** No source lists more. */
  function Longest(replies: seq<Reply>): (n: nat)
    ensures forall i :: 0 <= i < |replies| ==> |replies[i].functions| <= n
  {
    if replies == [] then 0
    else
      var rest := Longest(replies[1..]);
      if |replies[0].functions| < rest then rest else |replies[0].functions|
  }

  lemma CompleteFailsExactly(cfg: Config, replies: seq<Reply>, reverse: bool)
    requires forall r :: r in replies ==> SourceSorted(cfg, Functions, reverse, r.functions)
    ensures MergeReplies(cfg, Functions, replies).Err? <==> Fails(cfg, Lists(replies), Longest(replies))
  {
    var served := Served(replies, 0, Longest(replies));
    forall i | 0 <= i < |replies|
      ensures served[i] == replies[i]
    {
      assert Page(replies[i].functions, 0, Longest(replies)) == replies[i].functions;
    }
    assert served == replies;
    ServedFailsExactly(cfg, replies, reverse, Longest(replies));
  }

  lemma PlacesFit(replies: seq<Reply>, a: int, p: int)
    requires Place(Lists(replies), a, p)
    ensures p < Longest(replies)
  {
  }

  /** What fails in the complete listing and is within the limit fails there too. */
  lemma FailsWithin(cfg: Config, replies: seq<Reply>, limit: nat, a: int, p: int, b: int, q: int)
    requires FailsAt(cfg, Lists(replies), Longest(replies), a, p, b, q) && p < limit && q < limit
    ensures FailsAt(cfg, Lists(replies), limit, a, p, b, q)
  {
    var lists := Lists(replies);
    forall c, r | ServedPlace(lists, limit, c, r)
      ensures ServedPlace(lists, Longest(replies), c, r)
    {
      PlacesFit(replies, c, r);
    }
  }

  /** Every failure of the complete listing has a place beyond the limit. */
  ghost predicate FailsBeyond(cfg: Config, replies: seq<Reply>, limit: nat) {
    forall a, p, b, q :: FailsAt(cfg, Lists(replies), Longest(replies), a, p, b, q) ==> p >= limit || q >= limit
  }

  lemma NoFailureMeansBeyond(cfg: Config, replies: seq<Reply>, limit: nat)
    requires !Fails(cfg, Lists(replies), limit)
    ensures FailsBeyond(cfg, replies, limit)
  {
    forall a, p, b, q | FailsAt(cfg, Lists(replies), Longest(replies), a, p, b, q)
      ensures p >= limit || q >= limit
    {
      if p < limit && q < limit {
        FailsWithin(cfg, replies, limit, a, p, b, q);
      }
    }
  }

  lemma LateIsLateInAll(cfg: Config, replies: seq<Reply>, limit: nat, a: int, p: int, b: int, q: int)
    requires ServedLate(cfg, Lists(replies), limit, a, p, b, q)
    ensures FailsAt(cfg, Lists(replies), Longest(replies), a, p, b, q) && p < limit && q < limit
    ensures Fails(cfg, Lists(replies), Longest(replies))
  {
    PlacesFit(replies, a, p);
    PlacesFit(replies, b, q);
    assert FailsAt(cfg, Lists(replies), Longest(replies), a, p, b, q);
  }

  lemma BeyondMeansNoneLate(cfg: Config, replies: seq<Reply>, limit: nat)
    requires FailsBeyond(cfg, replies, limit)
    ensures !exists a, p, b, q :: ServedLate(cfg, Lists(replies), limit, a, p, b, q)
  {
    if a, p, b, q :| ServedLate(cfg, Lists(replies), limit, a, p, b, q) {
      LateIsLateInAll(cfg, replies, limit, a, p, b, q);
    }
  }

  /** Cutting the sources hides a failure exactly if the complete listing fails somewhere and what is served
      nowhere. What is served merges exactly if all failures of the complete listing reach beyond the limit and,
      with conflicts as errors, no version is the highest twice among what is served. */
  lemma LimitHidesFailureExactly(cfg: Config, replies: seq<Reply>, reverse: bool, limit: nat)
    requires forall r :: r in replies ==> SourceSorted(cfg, Functions, reverse, r.functions)
    ensures MergeReplies(cfg, Functions, replies).Err? && MergeReplies(cfg, Functions, Served(replies, 0, limit)).Ok?
            <==> Fails(cfg, Lists(replies), Longest(replies)) && !Fails(cfg, Lists(replies), limit)
    ensures MergeReplies(cfg, Functions, Served(replies, 0, limit)).Ok?
            <==> && FailsBeyond(cfg, replies, limit)
                 && (cfg.conflict.Error? ==> !exists a, p, b, q :: ServedTwice(cfg, Lists(replies), limit, a, p, b, q))
  {
    CompleteFailsExactly(cfg, replies, reverse);
    ServedFailsExactly(cfg, replies, reverse, limit);
    if a, p, b, q :| cfg.conflict.Error? && ServedTwice(cfg, Lists(replies), limit, a, p, b, q) {
      assert FailsAt(cfg, Lists(replies), limit, a, p, b, q);
    }
    if Fails(cfg, Lists(replies), limit) {
      if FailsBeyond(cfg, replies, limit) {
        BeyondMeansNoneLate(cfg, replies, limit);
        var a, p, b, q :| FailsAt(cfg, Lists(replies), limit, a, p, b, q);
        assert !ServedLate(cfg, Lists(replies), limit, a, p, b, q);
      }
    } else {
      NoFailureMeansBeyond(cfg, replies, limit);
    }
  }

  /** With conflicts as errors: if the complete merge succeeds, the merge of what the sources serve within the
      limit fails exactly if two of them serve the same version of a function and it is the highest served
      until then; and then an earlier source keeps a higher or unreadable one beyond its limit. */
  lemma ErrorLimitPushdown(cfg: Config, replies: seq<Reply>, reverse: bool, limit: nat)
    requires cfg.conflict.Error?
    requires forall r :: r in replies ==> SourceSorted(cfg, Functions, reverse, r.functions)
    requires MergeReplies(cfg, Functions, replies).Ok?
    ensures MergeReplies(cfg, Functions, Served(replies, 0, limit)).Err?
            <==> exists a, p, b, q :: ServedTwice(cfg, Lists(replies), limit, a, p, b, q)
    ensures forall a, p, b, q :: ServedTwice(cfg, Lists(replies), limit, a, p, b, q) ==>
              HiddenBefore(cfg, Lists(replies), limit, Lists(replies)[a][p], b)
  {
    CompleteFailsExactly(cfg, replies, reverse);
    ServedFailsExactly(cfg, replies, reverse, limit);
    SortedNamesOnce(cfg, replies, reverse);
    OnlyTwiceFails(cfg, replies, limit);
    forall a, p, b, q | ServedTwice(cfg, Lists(replies), limit, a, p, b, q)
      ensures HiddenBefore(cfg, Lists(replies), limit, Lists(replies)[a][p], b)
    {
      ServedTwiceHides(cfg, Lists(replies), limit, a, p, b, q);
    }
  }

  lemma OnlyTwiceFails(cfg: Config, replies: seq<Reply>, limit: nat)
    requires cfg.conflict.Error? && !Fails(cfg, Lists(replies), Longest(replies))
    ensures Fails(cfg, Lists(replies), limit) <==> exists a, p, b, q :: ServedTwice(cfg, Lists(replies), limit, a, p, b, q)
  {
    if a, p, b, q :| FailsAt(cfg, Lists(replies), limit, a, p, b, q) {
      if ServedLate(cfg, Lists(replies), limit, a, p, b, q) {
        LateIsLateInAll(cfg, replies, limit, a, p, b, q);
      }
    }
    if a, p, b, q :| ServedTwice(cfg, Lists(replies), limit, a, p, b, q) {
      assert FailsAt(cfg, Lists(replies), limit, a, p, b, q);
    }
  }

  // ---------- versions ----------

  /** Two entries of the same name and version. */
  ghost predicate SameEntry(lists: seq<seq<Function>>, a: int, p: int, b: int, q: int) {
    && Place(lists, a, p) && Place(lists, b, q) && (a != b || p != q)
    && VersionKey(lists[a][p]) == VersionKey(lists[b][q])
  }

  lemma KeyRepeatsAtPlaces(lists: seq<seq<Function>>)
    ensures KeyRepeats(VersionKey, Flatten(lists), |Flatten(lists)|) <==> exists a, p, b, q :: SameEntry(lists, a, p, b, q)
  {
    var all := Flatten(lists);
    if KeyRepeats(VersionKey, all, |all|) {
      var i, j :| 0 <= i < j < |all| && VersionKey(all[i]) == VersionKey(all[j]);
      var a, p := FlatFind(lists, i);
      var b, q := FlatFind(lists, j);
      FlatAt(lists, a, p);
      FlatAt(lists, b, q);
      assert SameEntry(lists, a, p, b, q);
    }
    if a, p, b, q :| SameEntry(lists, a, p, b, q) {
      FlatAt(lists, a, p);
      FlatAt(lists, b, q);
      FlatOrder(lists, a, p, b, q);
      FlatOrder(lists, b, q, a, p);
      var i, j := FlatIndex(lists, a, p), FlatIndex(lists, b, q);
      assert VersionKey(all[i]) == VersionKey(all[j]);
    }
  }

  lemma SameServedEntry(lists: seq<seq<Function>>, limit: nat)
    ensures (exists a, p, b, q :: SameEntry(Windows(lists, 0, limit), a, p, b, q))
            <==> exists a, p, b, q :: SameEntry(lists, a, p, b, q) && p < limit && q < limit
  {
    var w := Windows(lists, 0, limit);
    if a, p, b, q :| SameEntry(w, a, p, b, q) {
      ServedPlaces(lists, limit, a, p);
      ServedPlaces(lists, limit, b, q);
      assert SameEntry(lists, a, p, b, q) && p < limit && q < limit;
    }
    if a, p, b, q :| SameEntry(lists, a, p, b, q) && p < limit && q < limit {
      ServedPlaces(lists, limit, a, p);
      ServedPlaces(lists, limit, b, q);
      assert SameEntry(w, a, p, b, q);
    }
  }

  /** When versions are listed with conflicts as errors, cutting the sources hides a conflict exactly if some
      name and version is listed twice, but never twice within the limit. */
  lemma ErrorVersionsPushdown(cfg: Config, replies: seq<Reply>, limit: nat)
    requires cfg.conflict.Error?
    ensures MergeReplies(cfg, Versions, replies).Err? <==> exists a, p, b, q :: SameEntry(Lists(replies), a, p, b, q)
    ensures MergeReplies(cfg, Versions, Served(replies, 0, limit)).Ok?
            <==> forall a, p, b, q :: SameEntry(Lists(replies), a, p, b, q) ==> p >= limit || q >= limit
  {
    var lists := Lists(replies);
    ServedLists(replies, 0, limit);
    VersionMergeCharacterized(cfg, Flatten(lists));
    VersionMergeCharacterized(cfg, Flatten(Windows(lists, 0, limit)));
    KeyRepeatsAtPlaces(lists);
    KeyRepeatsAtPlaces(Windows(lists, 0, limit));
    SameServedEntry(lists, limit);
  }

  // ---------- examples ----------

  const ONE := Version(1, 0, 0, [], [])
  const TWO := Version(2, 0, 0, [], [])
  const ALPHA := Function("alpha", "2.0.0", map[], 0)
  const BETA1 := Function("beta", "1.0.0", map[], 0)
  const BETA2 := Function("beta", "2.0.0", map[], 0)
  const THREE_SOURCES := [Reply("x", [ALPHA, BETA2]), Reply("y", [BETA1]), Reply("z", [BETA1])]

  ghost predicate ReadsBoth(cfg: Config) {
    cfg.parse("1.0.0") == Some(ONE) && cfg.parse("2.0.0") == Some(TWO)
  }

  lemma ThreeLists(x: Reply, y: Reply, z: Reply)
    ensures Flatten(Lists([x, y, z]))
            == Tagged(x.registry, x.functions) + Tagged(y.registry, y.functions) + Tagged(z.registry, z.functions)
  {
    assert [x, y, z][1..] == [y, z] && [y, z][1..] == [z] && [z][1..] == [];
    var xs, ys, zs := Tagged(x.registry, x.functions), Tagged(y.registry, y.functions), Tagged(z.registry, z.functions);
    assert Lists([z]) == [zs] && Lists([y, z]) == [ys] + [zs] && Lists([x, y, z]) == [xs] + ([ys] + [zs]);
    assert Flatten([zs]) == zs + Flatten([]);
    assert Flatten([ys] + [zs]) == ys + Flatten([zs]);
    assert Flatten([xs] + ([ys] + [zs])) == xs + Flatten([ys] + [zs]);
  }

  lemma NewestSurvives(cfg: Config, a: Function, n2: Function, n1y: Function, n1z: Function)
    requires cfg.conflict.Error? && ReadsBoth(cfg)
    requires a.name == "alpha" && n2.name == "beta" && n1y.name == "beta" && n1z.name == "beta"
    requires n2.version == "2.0.0" && n1y.version == "1.0.0" && n1z.version == "1.0.0"
    ensures Merge(cfg, Functions, [a, n2, n1y, n1z]).Ok?
    ensures Merge(cfg, Functions, [a, n1y, n1z]).Err?
  {
    var insert := InsertNewest(cfg);
    var all := [a, n2, n1y, n1z];
    assert "alpha" != "beta" by { assert "alpha"[0] == 'a' && "beta"[0] == 'b'; }
    var kept := map["alpha" := a]["beta" := n2];
    assert TryFold(insert, all, 1) == Ok(map["alpha" := a]);
    assert TryFold(insert, all, 2) == Ok(kept);
    assert TryFold(insert, all, 3) == Ok(kept);
    assert TryFold(insert, all, 4) == Ok(kept);
    var served := [a, n1y, n1z];
    assert TryFold(insert, served, 1) == Ok(map["alpha" := a]);
    assert TryFold(insert, served, 2) == Ok(map["alpha" := a]["beta" := n1y]);
    assert TryFold(insert, served, 3).Err?;
  }

  lemma ServedThree(x: Reply, y: Reply, z: Reply, limit: nat)
    ensures Served([x, y, z], 0, limit)
            == [Reply(x.registry, Page(x.functions, 0, limit)),
                Reply(y.registry, Page(y.functions, 0, limit)),
                Reply(z.registry, Page(z.functions, 0, limit))]
  {
  }

  lemma SmallSourcesSorted(cfg: Config)
    ensures SourceSorted(cfg, Functions, false, [ALPHA, BETA2]) && SourceSorted(cfg, Functions, false, [BETA1])
  {
    assert "alpha"[0] == 'a' && "beta"[0] == 'b';
    assert ByName(ALPHA, BETA2);
  }

  /** When conflicts are errors, pushing the limit down is not sound: here the complete merge of three
      sources succeeds, but cutting off the highest version makes two lower ones collide. */
  lemma ErrorModePushdownFails(cfg: Config)
    requires cfg.conflict.Error? && ReadsBoth(cfg)
    ensures forall r :: r in THREE_SOURCES ==> SourceSorted(cfg, Functions, false, r.functions)
    ensures MergeReplies(cfg, Functions, THREE_SOURCES).Ok?
    ensures MergeReplies(cfg, Functions, Served(THREE_SOURCES, 0, 1)).Err?
  {
    SmallSourcesSorted(cfg);
    var x, y, z := Reply("x", [ALPHA, BETA2]), Reply("y", [BETA1]), Reply("z", [BETA1]);
    ThreeLists(x, y, z);
    ServedThree(x, y, z, 1);
    assert Page([ALPHA, BETA2], 0, 1) == [ALPHA] && Page([BETA1], 0, 1) == [BETA1];
    ThreeLists(Reply("x", [ALPHA]), y, z);
    NewestSurvives(cfg, Tag("x", ALPHA), Tag("x", BETA2), Tag("y", BETA1), Tag("z", BETA1));
    assert Tagged("x", [ALPHA, BETA2]) == [Tag("x", ALPHA), Tag("x", BETA2)] && Tagged("x", [ALPHA]) == [Tag("x", ALPHA)];
    assert Tagged("y", [BETA1]) == [Tag("y", BETA1)] && Tagged("z", [BETA1]) == [Tag("z", BETA1)];
    assert Flatten(Lists(THREE_SOURCES)) == [Tag("x", ALPHA), Tag("x", BETA2), Tag("y", BETA1), Tag("z", BETA1)];
    assert Flatten(Lists(Served(THREE_SOURCES, 0, 1))) == [Tag("x", ALPHA), Tag("y", BETA1), Tag("z", BETA1)];
  }

  lemma MergeThree(cfg: Config, p: Function, q: Function, a: Function, b: Function)
    requires cfg.conflict.UsePriority? && VersionKey(p) == VersionKey(q)
    requires VersionKey(p) != VersionKey(a) && VersionKey(p) != VersionKey(b) && VersionKey(a) != VersionKey(b)
    ensures Merge(cfg, Versions, [p, a, q, b]).Ok? && Merge(cfg, Versions, [p, a, q, b]).value.Values == {p, a, b}
    ensures Merge(cfg, Versions, [a, b]).Ok? && Merge(cfg, Versions, [a, b]).value.Values == {a, b}
  {
    var insert := InsertFirst(cfg, VersionKey);
    var all := [p, a, q, b];
    var first := map[VersionKey(p) := p];
    var two := first[VersionKey(a) := a];
    assert TryFold(insert, all, 1) == Ok(first);
    assert TryFold(insert, all, 2) == Ok(two);
    assert TryFold(insert, all, 3) == Ok(two);
    var three := two[VersionKey(b) := b];
    assert TryFold(insert, all, 4) == Ok(three);
    assert three[VersionKey(p)] == p && three[VersionKey(a)] == a && three[VersionKey(b)] == b;
    assert three.Values == {p, a, b};
    var cut := [a, b];
    var one := map[VersionKey(a) := a];
    assert TryFold(insert, cut, 1) == Ok(one);
    assert TryFold(insert, cut, 2) == Ok(one[VersionKey(b) := b]);
    assert one[VersionKey(b) := b][VersionKey(a)] == a && one[VersionKey(b) := b][VersionKey(b)] == b;
    assert one[VersionKey(b) := b].Values == {a, b};
  }

  const ALPHA1 := Function("alpha", "1.0.0", map[], 0)
  const BETA_A := Function("beta", "1.0.0+a", map[], 0)
  const BETA_B := Function("beta", "1.0.0+b", map[], 0)
  const TIED_SOURCES := [Reply("x", [ALPHA1, BETA_A]), Reply("y", [ALPHA1, BETA_B])]

  lemma TiedLists()
    ensures Flatten(Lists(TIED_SOURCES)) == [Tag("x", ALPHA1), Tag("x", BETA_A), Tag("y", ALPHA1), Tag("y", BETA_B)]
    ensures Flatten(Lists(Served(TIED_SOURCES, 1, 1))) == [Tag("x", BETA_A), Tag("y", BETA_B)]
  {
    TwoLists(Reply("x", [ALPHA1, BETA_A]), Reply("y", [ALPHA1, BETA_B]));
    var x, y := Reply("x", Page([ALPHA1, BETA_A], 1, 1)), Reply("y", Page([ALPHA1, BETA_B], 1, 1));
    assert Page([ALPHA1, BETA_A], 1, 1) == [BETA_A] && Page([ALPHA1, BETA_B], 1, 1) == [BETA_B];
    assert Served(TIED_SOURCES, 1, 1) == [x, y];
    TwoLists(x, y);
  }

  lemma TwoLists(x: Reply, y: Reply)
    ensures Flatten(Lists([x, y])) == Tagged(x.registry, x.functions) + Tagged(y.registry, y.functions)
  {
    assert [x, y][1..] == [y] && [y][1..] == [];
    var xs, ys := Tagged(x.registry, x.functions), Tagged(y.registry, y.functions);
    assert Lists([y]) == [ys] && Lists([x, y]) == [xs] + [ys];
    assert Flatten([ys]) == ys + Flatten([]);
    assert Flatten([xs] + [ys]) == xs + Flatten([ys]);
  }

  lemma TiedKeys()
    ensures VersionKey(ALPHA1) != VersionKey(BETA_A) && VersionKey(ALPHA1) != VersionKey(BETA_B) && VersionKey(BETA_A) != VersionKey(BETA_B)
    ensures StringLess("alpha", "beta") && ':' !in "alpha" && ':' !in "beta"
  {
    assert VersionKey(ALPHA1)[0] == 'a' && VersionKey(BETA_A)[0] == 'b' && VersionKey(BETA_B)[0] == 'b';
    assert VersionKey(BETA_A)[11] == 'a' && VersionKey(BETA_B)[11] == 'b';
  }

  lemma TwoListed(before: (Function, Function) -> bool, a: Function, b: Function)
    requires a != b && !before(b, a)
    ensures IsListing(before, {a, b}, [a, b])
  {
    assert Elements([a, b]) == {a, b};
  }

  lemma ThreeListed(before: (Function, Function) -> bool, a: Function, b: Function, c: Function)
    requires a != b && b != c && a != c && !before(b, a) && !before(c, b) && !before(c, a)
    ensures IsListing(before, {a, b, c}, [a, b, c])
  {
    var s := [a, b, c];
    assert Elements(s) == {a, b, c};
    forall i, j | 0 <= i < j < |s|
      ensures s[i] != s[j] && !before(s[j], s[i])
    {
    }
  }

  lemma TiedOrder(cfg: Config, p: Function, a: Function, b: Function)
    requires p.name == "alpha" && a.name == "beta" && b.name == "beta"
    requires SameVersion(SortVersion(cfg, a), SortVersion(cfg, b))
    ensures NameThenNewest(cfg, p, a) && !NameThenNewest(cfg, a, p)
    ensures !NameThenNewest(cfg, a, b) && !NameThenNewest(cfg, b, a)
  {
    TiedKeys();
    StringLessTotal();
    TieEqual(SortVersion(cfg, a), SortVersion(cfg, b));
  }

  lemma TiedListable(cfg: Config)
    requires SameVersion(SortVersion(cfg, BETA_A), SortVersion(cfg, BETA_B))
    requires MergeReplies(cfg, Versions, TIED_SOURCES).Ok?
    ensures Listable(cfg, Versions, TIED_SOURCES, false)
  {
    TiedLists();
    TiedKeys();
    TiedOrder(cfg, ALPHA1, BETA_A, BETA_B);
    TiedOrder(cfg, ALPHA1, BETA_B, BETA_A);
    assert ListOrder(cfg)(ALPHA1, BETA_A) && ListOrder(cfg)(ALPHA1, BETA_B);
    assert SourceSorted(cfg, Versions, false, [ALPHA1, BETA_A]) && SourceSorted(cfg, Versions, false, [ALPHA1, BETA_B]);
  }

  lemma TiedPages(cfg: Config, p: Function, a: Function, b: Function)
    requires p.name == "alpha" && a.name == "beta" && b.name == "beta" && a != b
    requires SameVersion(SortVersion(cfg, a), SortVersion(cfg, b))
    ensures IsPage(Direction(ListOrder(cfg), false), {p, a, b}, 1, 1, [a])
    ensures IsPage(Direction(ListOrder(cfg), false), {a, b}, 1, 1, [a])
  {
    TiedOrder(cfg, p, a, b);
    TiedOrder(cfg, p, b, a);
    ThreeListed(ListOrder(cfg), p, a, b);
    TwoListed(ListOrder(cfg), b, a);
    assert {b, a} == {a, b};
    assert Page([p, a, b], 1, 1) == [a] && Page([b, a], 1, 1) == [a];
  }

  lemma TiedMerges(cfg: Config)
    requires cfg.conflict.UsePriority?
    ensures MergeReplies(cfg, Versions, TIED_SOURCES).Ok?
    ensures MergeReplies(cfg, Versions, TIED_SOURCES).value.Values == {Tag("x", ALPHA1), Tag("x", BETA_A), Tag("y", BETA_B)}
    ensures MergeReplies(cfg, Versions, Served(TIED_SOURCES, 1, 1)).Ok?
    ensures MergeReplies(cfg, Versions, Served(TIED_SOURCES, 1, 1)).value.Values == {Tag("x", BETA_A), Tag("y", BETA_B)}
  {
    TiedLists();
    TiedKeys();
    MergeThree(cfg, Tag("x", ALPHA1), Tag("y", ALPHA1), Tag("x", BETA_A), Tag("y", BETA_B));
  }

  /** When listed versions tie, an offset applied twice can go unnoticed: here something is skipped and
      something shown, and yet an answer is shared. */
  lemma TiedVersionsShareAnAnswer(cfg: Config)
    requires cfg.conflict.UsePriority? && SameVersion(SortVersion(cfg, BETA_A), SortVersion(cfg, BETA_B))
    ensures MergeReplies(cfg, Versions, TIED_SOURCES).Ok? && |MergeReplies(cfg, Versions, TIED_SOURCES).value.Values| == 3
    ensures MergeReplies(cfg, Versions, Served(TIED_SOURCES, 1, 1)).Ok?
    ensures Listable(cfg, Versions, TIED_SOURCES, false)
    ensures SharesAnAnswer(cfg, Versions, TIED_SOURCES, false, 1, 1)
  {
    var p, a, b := Tag("x", ALPHA1), Tag("x", BETA_A), Tag("y", BETA_B);
    TiedMerges(cfg);
    assert "alpha"[0] != "beta"[0];
    assert p.name != a.name && p.name != b.name && a.version[6] != b.version[6];
    TiedPages(cfg, p, a, b);
    TiedListable(cfg);
  }

  lemma TieEqual(u: Version, v: Version)
    requires SameVersion(u, v)
    ensures !VersionLess(u, v) && !VersionLess(v, u)
  {
    VersionTrichotomy(u, v);
  }
}

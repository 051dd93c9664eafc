/** Limits when sources do not honour them: Quinn reads a limit of 0 as 100 and none above 1000. */
module ProxyClamps {
  import opened Listing
  import opened Order
  import opened Pushdown
  import opened Results
  import opened Proxy
  import opened ProxyListing
  import Q = Quinn

  lemma PageOfPage<E(!new)>(before: (E, E) -> bool, S: set<E>, limit: nat, n: nat, out: seq<E>)
    requires IsPage(before, S, 0, limit, out)
    ensures IsPage(before, S, 0, Min(limit, n), Page(out, 0, n))
  {
    var s :| IsListing(before, S, s) && out == Page(s, 0, limit);
    assert Page(out, 0, n) == Page(s, 0, Min(limit, n));
  }

  lemma ServesLess(replies: seq<Reply>, served: seq<Reply>, limit: nat, less: nat)
    requires Serves(replies, served, limit) && less <= limit
    ensures Serves(replies, served, less)
  {
    forall i | 0 <= i < |replies|
      ensures ServesReply(replies[i], served[i], less)
    {
      assert ServesReply(replies[i], served[i], limit);
    }
  }

  /** When every source serves at least what Quinn would, the first thousand entries of a page are right: they
      are a first page of the complete merge. Up to a limit of 1000 that is the whole page. */
  lemma FirstThousandRight(cfg: Config, kind: ListKind, replies: seq<Reply>, served: seq<Reply>, reverse: bool, limit: nat, out: seq<Function>)
    requires Listable(cfg, kind, replies, reverse)
    requires Serves(replies, served, Q.ClampLimit(limit)) && MergeReplies(cfg, kind, served).Ok?
    requires IsPage(Direction(ListOrder(cfg), reverse), MergeReplies(cfg, kind, served).value.Values, 0, limit, out)
    ensures IsPage(Direction(ListOrder(cfg), reverse), MergeReplies(cfg, kind, replies).value.Values, 0, Min(limit, 1000), Page(out, 0, 1000))
    ensures limit <= 1000 ==> Page(out, 0, 1000) == out
  {
    var sure := Min(limit, 1000);
    ServesLess(replies, served, Q.ClampLimit(limit), sure);
    PageOfPage(Direction(ListOrder(cfg), reverse), MergeReplies(cfg, kind, served).value.Values, limit, 1000, out);
    LimitPushdown(cfg, kind, replies, served, reverse, sure, Page(out, 0, 1000));
  }

  // ---------- one source ----------

  lemma OneList(reply: Reply)
    ensures Lists([reply]) == [Tagged(reply.registry, reply.functions)]
    ensures Flatten(Lists([reply])) == Tagged(reply.registry, reply.functions)
  {
    assert [reply][1..] == [];
    var tagged := Tagged(reply.registry, reply.functions);
    assert Lists([reply]) == [tagged] + [];
    assert Flatten([tagged]) == tagged + Flatten([tagged][1..]);
  }

  /** A list in strict order has no key twice, and so it merges. */
  lemma OneListMerges(cfg: Config, kind: ListKind, reverse: bool, fs: seq<Function>)
    requires StrictlySorted(Direction(SourceOrder(cfg, kind), reverse), fs)
    requires kind.Versions? ==> forall f :: f in fs ==> ':' !in f.name
    ensures Merge(cfg, kind, fs).Ok?
  {
    KeysTieInOrder(cfg, kind, reverse, fs);
    forall i, j | 0 <= i < j < |fs|
      ensures KeyOf(kind)(fs[i]) != KeyOf(kind)(fs[j])
    {
      assert fs[i] in fs && fs[j] in fs;
    }
    if kind.Functions? {
      FunctionMergeCharacterized(cfg, fs);
      forall i, j
        ensures !Clash(cfg, fs, i, j)
      {
        assert 0 <= i < j < |fs| ==> NameKey(fs[i]) != NameKey(fs[j]);
      }
    } else {
      VersionMergeCharacterized(cfg, fs);
    }
  }

  lemma OneCutList(reply: Reply, n: nat)
    ensures Flatten(Lists(Served([reply], 0, n))) == Page(Tagged(reply.registry, reply.functions), 0, n)
  {
    var cut := Reply(reply.registry, Page(reply.functions, 0, n));
    assert Served([reply], 0, n) == [cut];
    OneList(cut);
    TaggedPage(reply.registry, reply.functions, 0, n);
  }

  lemma BeginningInOrder(before: (Function, Function) -> bool, fs: seq<Function>, n: nat)
    requires StrictlySorted(before, fs)
    ensures StrictlySorted(before, Page(fs, 0, n))
    ensures forall f :: f in Page(fs, 0, n) ==> f in fs
  {
    var s := Page(fs, 0, n);
    assert forall i :: 0 <= i < |s| ==> s[i] == fs[i];
  }

  lemma OneReplyMerges(cfg: Config, kind: ListKind, reply: Reply, reverse: bool, n: nat)
    requires Listable(cfg, kind, [reply], reverse)
    ensures MergeReplies(cfg, kind, Served([reply], 0, n)).Ok?
  {
    var fs := Tagged(reply.registry, reply.functions);
    assert reply in [reply];
    OneList(reply);
    TaggedSorted(cfg, kind, reverse, reply);
    OneCutList(reply, n);
    BeginningInOrder(Direction(SourceOrder(cfg, kind), reverse), fs, n);
    OneListMerges(cfg, kind, reverse, Page(fs, 0, n));
  }

  lemma ValuesFit(key: Function -> string, fs: seq<Function>, m: map<string, Function>)
    requires Merged(key, fs, m)
    ensures |m.Values| <= |fs|
  {
    forall f | f in m.Values
      ensures f in Elements(fs)
    {
      var k :| k in m && m[k] == f;
    }
    SubsetSize(m.Values, Elements(fs));
    ElementsSize(fs);
  }

  lemma MergeFits(cfg: Config, kind: ListKind, fs: seq<Function>)
    requires Merge(cfg, kind, fs).Ok?
    ensures |Merge(cfg, kind, fs).value.Values| <= |fs|
  {
    MergeKeepsOnePerKey(cfg, kind, fs);
    ValuesFit(KeyOf(kind), fs, Merge(cfg, kind, fs).value);
  }

  /** One source alone merges to as many entries as it lists. */
  lemma OneReplySizes(cfg: Config, kind: ListKind, reply: Reply, reverse: bool, n: nat)
    requires Listable(cfg, kind, [reply], reverse)
    ensures |MergeReplies(cfg, kind, [reply]).value.Values| == |reply.functions|
    ensures MergeReplies(cfg, kind, Served([reply], 0, n)).Ok?
    ensures |MergeReplies(cfg, kind, Served([reply], 0, n)).value.Values| <= n
  {
    OneList(reply);
    SourceFitsMerge(cfg, kind, [reply], reverse, 0);
    MergeFits(cfg, kind, Flatten(Lists([reply])));
    OneReplyMerges(cfg, kind, reply, reverse, n);
    OneCutList(reply, n);
    MergeFits(cfg, kind, Flatten(Lists(Served([reply], 0, n))));
  }

  lemma PageSize<E(!new)>(before: (E, E) -> bool, S: set<E>, limit: nat, out: seq<E>)
    requires StrictWeak(before) && IsPage(before, S, 0, limit, out)
    ensures |out| == Min(limit, |S|)
  {
    FirstPageIsTop(before, S, limit, out);
    assert IsTop(before, S, limit, out);
  }

  /** With the limit passed down, some answer is one the complete merge could have given. */
  ghost predicate SharesFirstPage(cfg: Config, kind: ListKind, replies: seq<Reply>, served: seq<Reply>, reverse: bool, limit: nat)
    requires MergeReplies(cfg, kind, replies).Ok? && MergeReplies(cfg, kind, served).Ok?
  {
    var order := Direction(ListOrder(cfg), reverse);
    exists out :: IsPage(order, MergeReplies(cfg, kind, replies).value.Values, 0, limit, out)
                  && IsPage(order, MergeReplies(cfg, kind, served).value.Values, 0, limit, out)
  }

  /** And beyond a thousand entries there may be no more: a page of one clamping source is right exactly if the
      limit or the source is no longer than that. */
  lemma ClampShowsExactly(cfg: Config, kind: ListKind, reply: Reply, reverse: bool, limit: nat)
    requires Listable(cfg, kind, [reply], reverse)
    ensures MergeReplies(cfg, kind, Served([reply], 0, Q.ClampLimit(limit))).Ok?
    ensures SharesFirstPage(cfg, kind, [reply], Served([reply], 0, Q.ClampLimit(limit)), reverse, limit)
            <==> limit <= 1000 || |reply.functions| <= 1000
  {
    var replies, served := [reply], Served([reply], 0, Q.ClampLimit(limit));
    var order := Direction(ListOrder(cfg), reverse);
    OneReplySizes(cfg, kind, reply, reverse, Q.ClampLimit(limit));
    OrdersWeak(cfg);
    DirectionWeak(ListOrder(cfg), reverse);
    if limit <= 1000 || |reply.functions| <= 1000 {
      ServedServes(replies, Q.ClampLimit(limit));
      assert Serves(replies, served, limit) by {
        assert ServesReply(replies[0], served[0], limit);
      }
      var s := ListingExists(order, MergeReplies(cfg, kind, replies).value.Values);
      var out := Page(s, 0, limit);
      assert IsPage(order, MergeReplies(cfg, kind, replies).value.Values, 0, limit, out);
      LimitPushdown(cfg, kind, replies, served, reverse, limit, out);
    } else {
      forall out | IsPage(order, MergeReplies(cfg, kind, replies).value.Values, 0, limit, out)
        ensures !IsPage(order, MergeReplies(cfg, kind, served).value.Values, 0, limit, out)
      {
        PageSize(order, MergeReplies(cfg, kind, replies).value.Values, limit, out);
        if IsPage(order, MergeReplies(cfg, kind, served).value.Values, 0, limit, out) {
          PageSize(order, MergeReplies(cfg, kind, served).value.Values, limit, out);
        }
      }
    }
  }
}

/** What a client of the proxy sees: the merged listing, and what becomes of the
limit and the offset when they are passed down to every source.
*/
module ProxyListing {
  import opened Order
  import opened Listing
  import opened Pushdown
  import opened Results
  import opened Semver
  import opened Proxy

  /** Stands in for an unreadable version when sorting. */
  const UNREADABLE := Version(0, 0, 1, [AlphaNumeric("invalid")], [])

  function SortVersion(cfg: Config, f: Function): Version {
    match cfg.parse(f.version)
    case Some(v) => v
    case None => UNREADABLE
  }

  /** The proxy means to sort what it cannot read last. It is last exactly among versions not below
      0.0.1-invalid: those with patch 0, and prereleases of 0.0.1 that begin with a lesser field, are below. */
  lemma UnreadableIsLastExactly(cfg: Config, f: Function, g: Function)
    requires cfg.parse(f.version).None? && cfg.parse(g.version).Some?
    ensures var v := cfg.parse(g.version).value;
            VersionLess(SortVersion(cfg, g), SortVersion(cfg, f))
            <==> v.major == 0 && v.minor == 0
                 && (v.patch == 0 || (v.patch == 1 && v.pre != [] && FieldBelow(v.pre[0], AlphaNumeric("invalid"))))
  {
    var v := cfg.parse(g.version).value;
    VersionLessExactly(v, UNREADABLE);
    if v.pre != [] && FieldBelow(v.pre[0], AlphaNumeric("invalid")) {
      assert PreBelowAt(v, UNREADABLE, 0);
    }
  }

  /** So 0.0.0 comes after what cannot be read. */
  lemma ZeroComesAfterUnreadable(cfg: Config, f: Function, g: Function)
    requires cfg.parse(f.version).None? && cfg.parse(g.version) == Some(Version(0, 0, 0, [], [])) && f.name == g.name
    ensures NameThenNewest(cfg, f, g)
  {
    UnreadableIsLastExactly(cfg, f, g);
  }

  /** `a` may be shown before `b`: by name, and between equal names the newest first. */
  ghost predicate InOrder(cfg: Config, reverse: bool, a: Function, b: Function) {
    var first, second := if reverse then b else a, if reverse then a else b;
    && !StringLess(second.name, first.name)
    && (first.name == second.name ==> !VersionLess(SortVersion(cfg, first), SortVersion(cfg, second)))
  }

  predicate NameThenNewest(cfg: Config, a: Function, b: Function) {
    StringLess(a.name, b.name) || (a.name == b.name && VersionLess(SortVersion(cfg, b), SortVersion(cfg, a)))
  }

  predicate ByName(a: Function, b: Function) { StringLess(a.name, b.name) }

  /** The order the proxy sorts in: name, then newest version first. */
  function ListOrder(cfg: Config): (Function, Function) -> bool {
    (a, b) => NameThenNewest(cfg, a, b)
  }

  /** The order in which the entries of one source cannot tie. */
  function SourceOrder(cfg: Config, kind: ListKind): (Function, Function) -> bool {
    if kind.Functions? then ByName else ListOrder(cfg)
  }

  lemma OrdersWeak(cfg: Config)
    ensures StrictWeak(ListOrder(cfg)) && StrictWeak(ByName)
  {
    StringLessTotal();
    VersionLessWeak();
    var before := ListOrder(cfg);
    forall a, b, c | before(a, c)
      ensures before(a, b) || before(b, c)
    {
      if a.name == b.name == c.name {
        assert VersionLess(SortVersion(cfg, c), SortVersion(cfg, b)) || VersionLess(SortVersion(cfg, b), SortVersion(cfg, a));
      }
    }
  }

  // ---------- the fold, key by key ----------

  function Only(m: map<string, Function>, k: string): map<string, Function> {
    if k in m then map[k := m[k]] else map[]
  }

  lemma InsertIsLocal(cfg: Config, kind: ListKind, m: map<string, Function>, f: Function, k: string)
    requires InsertFunction(cfg, kind)(m, f).Ok?
    ensures var insert := InsertFunction(cfg, kind);
            if KeyOf(kind)(f) == k then insert(Only(m, k), f) == Ok(Only(insert(m, f).value, k))
            else Only(insert(m, f).value, k) == Only(m, k)
  {
    if kind.Versions? {
      KeyedInsertIsLocal(cfg, VersionKey, m, f, k);
    } else if f.name == k {
      assert Only(m, k)[k := f] == Only(m[k := f], k);
    }
  }

  lemma KeyedInsertIsLocal(cfg: Config, key: Function -> string, m: map<string, Function>, f: Function, k: string)
    requires InsertFirst(cfg, key)(m, f).Ok?
    ensures if key(f) == k then InsertFirst(cfg, key)(Only(m, k), f) == Ok(Only(InsertFirst(cfg, key)(m, f).value, k))
            else Only(InsertFirst(cfg, key)(m, f).value, k) == Only(m, k)
  {
  }

  lemma {:induction false} FoldPrefix(insert: Insert, xs: seq<Function>, ys: seq<Function>, n: nat)
    requires n <= |xs| && n <= |ys| && xs[..n] == ys[..n]
    ensures TryFold(insert, xs, n) == TryFold(insert, ys, n)
  {
    if n > 0 {
      assert xs[..n][..n - 1] == xs[..n - 1] && ys[..n][..n - 1] == ys[..n - 1];
      assert xs[n - 1] == xs[..n][n - 1] && ys[n - 1] == ys[..n][n - 1];
      FoldPrefix(insert, xs, ys, n - 1);
    }
  }

  lemma FoldAppend(insert: Insert, xs: seq<Function>, x: Function)
    requires TryFold(insert, xs, |xs|).Ok?
    ensures TryFold(insert, xs + [x], |xs| + 1) == insert(TryFold(insert, xs, |xs|).value, x)
  {
    FoldPrefix(insert, xs + [x], xs, |xs|);
  }

  lemma CandidatesAppend(key: Function -> string, xs: seq<Function>, f: Function, k: string)
    ensures Candidates(key, xs + [f], k) == Candidates(key, xs, k) + if key(f) == k then [f] else []
  {
    CandidatesConcat(key, xs, [f], k);
    assert Candidates(key, [f], k) == if key(f) == k then [f] else [];
  }

  /** One more function changes the candidates of its own key only. */
  lemma FoldStepByKey(cfg: Config, kind: ListKind, c: seq<Function>, m: map<string, Function>, f: Function, k: string)
    requires TryFold(InsertFunction(cfg, kind), c, |c|) == Ok(Only(m, k)) && InsertFunction(cfg, kind)(m, f).Ok?
    ensures var c' := c + if KeyOf(kind)(f) == k then [f] else [];
            TryFold(InsertFunction(cfg, kind), c', |c'|) == Ok(Only(InsertFunction(cfg, kind)(m, f).value, k))
  {
    InsertIsLocal(cfg, kind, m, f, k);
    if KeyOf(kind)(f) == k {
      FoldAppend(InsertFunction(cfg, kind), c, f);
    } else {
      assert c + [] == c;
    }
  }

  /** The entry kept for a key depends on that key's candidates alone. */
  lemma {:induction false} FoldByKey(cfg: Config, kind: ListKind, fs: seq<Function>, n: nat, k: string)
    requires n <= |fs| && TryFold(InsertFunction(cfg, kind), fs, n).Ok?
    ensures var c := Candidates(KeyOf(kind), fs[..n], k);
            TryFold(InsertFunction(cfg, kind), c, |c|) == Ok(Only(TryFold(InsertFunction(cfg, kind), fs, n).value, k))
  {
    if n > 0 {
      var f := fs[n - 1];
      FoldByKey(cfg, kind, fs, n - 1, k);
      CandidatesAppend(KeyOf(kind), fs[..n - 1], f, k);
      assert fs[..n] == fs[..n - 1] + [f];
      FoldStepByKey(cfg, kind, Candidates(KeyOf(kind), fs[..n - 1], k), TryFold(InsertFunction(cfg, kind), fs, n - 1).value, f, k);
    }
  }

  lemma SameCandidatesSameWinner(cfg: Config, kind: ListKind, fs: seq<Function>, gs: seq<Function>, k: string)
    requires Merge(cfg, kind, fs).Ok? && Merge(cfg, kind, gs).Ok?
    requires Candidates(KeyOf(kind), fs, k) == Candidates(KeyOf(kind), gs, k)
    ensures Only(Merge(cfg, kind, fs).value, k) == Only(Merge(cfg, kind, gs).value, k)
  {
    assert fs[..|fs|] == fs && gs[..|gs|] == gs;
    FoldByKey(cfg, kind, fs, |fs|, k);
    FoldByKey(cfg, kind, gs, |gs|, k);
  }

  lemma MergeKeepsOnePerKey(cfg: Config, kind: ListKind, fs: seq<Function>)
    requires Merge(cfg, kind, fs).Ok?
    ensures Merged(KeyOf(kind), fs, Merge(cfg, kind, fs).value)
  {
    var m := Merge(cfg, kind, fs).value;
    if kind.Functions? {
      FunctionMergeCharacterized(cfg, fs);
      forall k | k in m
        ensures NameKey(m[k]) == k && m[k] in fs
      {
        assert IsWinner(cfg, fs, |fs|, k, m[k]);
      }
    } else {
      VersionMergeCharacterized(cfg, fs);
      FirstPerKey(VersionKey, fs, m);
    }
  }

  lemma FirstPerKey(key: Function -> string, fs: seq<Function>, m: map<string, Function>)
    requires KeepsFirst(key, fs, |fs|, m)
    ensures Merged(key, fs, m)
  {
    forall k | k in m
      ensures key(m[k]) == k && m[k] in fs
    {
      assert IsFirst(key, fs, |fs|, k, m[k]);
    }
  }

  // ---------- serving less cannot introduce a failure ----------

  /** `a` is obtained from `b` by leaving entries out. */
  ghost predicate Sub<E>(a: seq<E>, b: seq<E>) {
    a == [] || (b != [] && ((a[0] == b[0] && Sub(a[1..], b[1..])) || Sub(a, b[1..])))
  }

  lemma {:induction false} SubRefl<E>(a: seq<E>)
    ensures Sub(a, a)
  {
    if a != [] {
      SubRefl(a[1..]);
    }
  }

  lemma {:induction false} SubSkips<E>(a: seq<E>, pre: seq<E>, b: seq<E>)
    requires Sub(a, b)
    ensures Sub(a, pre + b)
  {
    if pre == [] {
      assert pre + b == b;
    } else {
      SubSkips(a, pre[1..], b);
      assert (pre + b)[1..] == pre[1..] + b;
    }
  }

  lemma {:induction false} SubConcat<E>(a: seq<E>, b: seq<E>, c: seq<E>, d: seq<E>)
    requires Sub(a, b) && Sub(c, d)
    ensures Sub(a + c, b + d)
  {
    if a == [] {
      assert a + c == c;
      SubSkips(c, b, d);
    } else {
      assert (b + d)[1..] == b[1..] + d && (a + c)[1..] == a[1..] + c;
      if a[0] == b[0] && Sub(a[1..], b[1..]) {
        SubConcat(a[1..], b[1..], c, d);
      } else {
        SubConcat(a, b[1..], c, d);
      }
    }
  }

  lemma PageIsSub<E>(s: seq<E>, offset: nat, limit: nat)
    ensures Sub(Page(s, offset, limit), s)
  {
    if offset < |s| {
      var p := Page(s, offset, limit);
      var rest := s[offset + |p|..];
      SubRefl(p);
      SubConcat(p, p, [], rest);
      assert p + [] == p;
      SubSkips(p, s[..offset], p + rest);
      assert s == s[..offset] + (p + rest);
    }
  }

  lemma {:induction false} WindowsAreSub<E>(lists: seq<seq<E>>, offset: nat, limit: nat)
    ensures Sub(Flatten(Windows(lists, offset, limit)), Flatten(lists))
  {
    if lists != [] {
      PageIsSub(lists[0], offset, limit);
      WindowsAreSub(lists[1..], offset, limit);
      SubConcat(Page(lists[0], offset, limit), lists[0], Flatten(Windows(lists[1..], offset, limit)), Flatten(lists[1..]));
    }
  }

  lemma {:induction false} SubFinds<E>(a: seq<E>, b: seq<E>, i: nat) returns (i': nat)
    requires Sub(a, b) && i < |a|
    ensures i' < |b| && b[i'] == a[i]
  {
    if a[0] == b[0] && Sub(a[1..], b[1..]) {
      if i == 0 {
        i' := 0;
      } else {
        i' := SubFinds(a[1..], b[1..], i - 1);
        i' := i' + 1;
      }
    } else {
      i' := SubFinds(a, b[1..], i);
      i' := i' + 1;
    }
  }

  lemma {:induction false} SubFindsPair<E>(a: seq<E>, b: seq<E>, i: nat, j: nat) returns (i': nat, j': nat)
    requires Sub(a, b) && i < j < |a|
    ensures i' < j' < |b| && b[i'] == a[i] && b[j'] == a[j]
  {
    if a[0] == b[0] && Sub(a[1..], b[1..]) {
      if i == 0 {
        j' := SubFinds(a[1..], b[1..], j - 1);
        i', j' := 0, j' + 1;
      } else {
        i', j' := SubFindsPair(a[1..], b[1..], i - 1, j - 1);
        i', j' := i' + 1, j' + 1;
      }
    } else {
      i', j' := SubFindsPair(a, b[1..], i, j);
      i', j' := i' + 1, j' + 1;
    }
  }

  /** A later function of a name whose version cannot be read. */
  ghost predicate LateUnreadable(cfg: Config, fs: seq<Function>, i: int, j: int) {
    0 <= i < j < |fs| && fs[i].name == fs[j].name && cfg.parse(fs[j].version).None?
  }

  /** With priorities, the function-mode fold fails exactly on a late unreadable version. */
  lemma PriorityMergeFails(cfg: Config, fs: seq<Function>)
    requires cfg.conflict.UsePriority?
    ensures Merge(cfg, Functions, fs).Err? <==> exists i, j :: LateUnreadable(cfg, fs, i, j)
  {
    FunctionMergeCharacterized(cfg, fs);
    if Merge(cfg, Functions, fs).Err? {
      var i, j :| Clash(cfg, fs, i, j);
      assert LateUnreadable(cfg, fs, i, j);
    } else {
      forall i, j
        ensures !LateUnreadable(cfg, fs, i, j)
      {
        if LateUnreadable(cfg, fs, i, j) {
          FunctionMergeUpTo(cfg, fs, j);
          FoldOkPrefix(cfg, fs, j, |fs|);
          var m := TryFold(InsertNewest(cfg), fs, j).value;
          assert IsWinner(cfg, fs, j, fs[j].name, m[fs[j].name]);
          var w :| WinnerAt(cfg, fs, j, fs[j].name, w);
          assert Clash(cfg, fs, w, j);
        }
      }
    }
  }

  lemma {:induction false} FoldOkPrefix(cfg: Config, fs: seq<Function>, n: nat, p: nat)
    requires n <= p <= |fs| && TryFold(InsertNewest(cfg), fs, p).Ok?
    ensures TryFold(InsertNewest(cfg), fs, n).Ok?
  {
    if n < p {
      FoldOkPrefix(cfg, fs, n, p - 1);
    }
  }

  lemma LessMergesToo(cfg: Config, kind: ListKind, fs: seq<Function>, gs: seq<Function>)
    requires Sub(gs, fs) && Merge(cfg, kind, fs).Ok?
    requires kind.Functions? ==> cfg.conflict.UsePriority?
    ensures Merge(cfg, kind, gs).Ok?
  {
    if kind.Functions? {
      PriorityMergeFails(cfg, fs);
      PriorityMergeFails(cfg, gs);
      forall i, j | LateUnreadable(cfg, gs, i, j)
        ensures exists i', j' :: LateUnreadable(cfg, fs, i', j')
      {
        var i', j' := SubFindsPair(gs, fs, i, j);
        assert LateUnreadable(cfg, fs, i', j');
      }
    } else {
      VersionMergeCharacterized(cfg, fs);
      VersionMergeCharacterized(cfg, gs);
      LessRepeatsLess(VersionKey, fs, gs);
    }
  }

  lemma LessRepeatsLess(key: Function -> string, fs: seq<Function>, gs: seq<Function>)
    requires Sub(gs, fs)
    ensures KeyRepeats(key, gs, |gs|) ==> KeyRepeats(key, fs, |fs|)
  {
    if KeyRepeats(key, gs, |gs|) {
      var i, j :| 0 <= i < j < |gs| && key(gs[i]) == key(gs[j]);
      var i', j' := SubFindsPair(gs, fs, i, j);
      assert key(fs[i']) == key(fs[j']);
    }
  }

  // ---------- limit pushdown ----------

  function Lists(replies: seq<Reply>): (r: seq<seq<Function>>)
    ensures |r| == |replies|
    ensures forall i :: 0 <= i < |replies| ==> r[i] == Tagged(replies[i].registry, replies[i].functions)
  {
    if replies == [] then []
    else [Tagged(replies[0].registry, replies[0].functions)] + Lists(replies[1..])
  }

  /** Every source answers with the window `[offset, offset + limit)` of its listing. */
  function Served(replies: seq<Reply>, offset: nat, limit: nat): (r: seq<Reply>)
    ensures |r| == |replies|
    ensures forall i :: 0 <= i < |replies| ==>
              r[i] == Reply(replies[i].registry, Page(replies[i].functions, offset, limit))
  {
    if replies == [] then []
    else [Reply(replies[0].registry, Page(replies[0].functions, offset, limit))] + Served(replies[1..], offset, limit)
  }

  function MergeReplies(cfg: Config, kind: ListKind, replies: seq<Reply>): Result<map<string, Function>, ProxyError> {
    Merge(cfg, kind, Flatten(Lists(replies)))
  }

  /** A source lists strictly in order: by name in function mode, by name and newest version in version mode. */
  ghost predicate SourceSorted(cfg: Config, kind: ListKind, reverse: bool, fs: seq<Function>) {
    StrictlySorted(Direction(SourceOrder(cfg, kind), reverse), fs)
  }

  /** What the theorems about limits and offsets stand on: sources listed in order, names without colons where
      these separate names from versions, and a complete merge that succeeds. */
  ghost predicate Listable(cfg: Config, kind: ListKind, replies: seq<Reply>, reverse: bool) {
    && (forall r :: r in replies ==> SourceSorted(cfg, kind, reverse, r.functions))
    && (kind.Versions? ==> forall f :: f in Flatten(Lists(replies)) ==> ':' !in f.name)
    && MergeReplies(cfg, kind, replies).Ok?
  }

  lemma TaggedPage(registry: string, fs: seq<Function>, offset: nat, limit: nat)
    ensures Tagged(registry, Page(fs, offset, limit)) == Page(Tagged(registry, fs), offset, limit)
  {
  }

  lemma {:induction false} ServedLists(replies: seq<Reply>, offset: nat, limit: nat)
    ensures Lists(Served(replies, offset, limit)) == Windows(Lists(replies), offset, limit)
  {
    if replies != [] {
      TaggedPage(replies[0].registry, replies[0].functions, offset, limit);
      ServedLists(replies[1..], offset, limit);
      var served := Served(replies, offset, limit);
      assert served[1..] == Served(replies[1..], offset, limit);
      assert Lists(replies)[1..] == Lists(replies[1..]);
    }
  }

  /** The order looks at names and versions only. */
  lemma SourceOrderReads(cfg: Config, kind: ListKind, reverse: bool, a: Function, b: Function, a': Function, b': Function)
    requires a.name == a'.name && a.version == a'.version && b.name == b'.name && b.version == b'.version
    ensures Direction(SourceOrder(cfg, kind), reverse)(a, b) == Direction(SourceOrder(cfg, kind), reverse)(a', b')
  {
    assert SortVersion(cfg, a) == SortVersion(cfg, a') && SortVersion(cfg, b) == SortVersion(cfg, b');
    assert NameThenNewest(cfg, a, b) == NameThenNewest(cfg, a', b');
    assert NameThenNewest(cfg, b, a) == NameThenNewest(cfg, b', a');
    var before := SourceOrder(cfg, kind);
    assert before(a, b) == before(a', b') && before(b, a) == before(b', a') by {
      if kind.Functions? {
        assert before == ByName;
      } else {
        assert before == ListOrder(cfg);
      }
    }
    if reverse {
      assert Flip(before)(a, b) == Flip(before)(a', b');
    }
  }

  lemma TaggedSorted(cfg: Config, kind: ListKind, reverse: bool, reply: Reply)
    requires SourceSorted(cfg, kind, reverse, reply.functions)
    ensures SourceSorted(cfg, kind, reverse, Tagged(reply.registry, reply.functions))
  {
    var fs := reply.functions;
    var gs := Tagged(reply.registry, fs);
    forall i, j | 0 <= i < j < |gs|
      ensures Direction(SourceOrder(cfg, kind), reverse)(gs[i], gs[j])
    {
      SourceOrderReads(cfg, kind, reverse, fs[i], fs[j], gs[i], gs[j]);
    }
  }

  lemma VersionKeyInjective(a: Function, b: Function)
    requires ':' !in a.name && ':' !in b.name && VersionKey(a) == VersionKey(b)
    ensures a.name == b.name && a.version == b.version
  {
    var k := VersionKey(a);
    assert k[|a.name|] == ':' && k[|b.name|] == ':';
    assert forall i :: 0 <= i < |a.name| ==> k[i] == a.name[i] && a.name[i] in a.name;
    assert forall i :: 0 <= i < |b.name| ==> k[i] == b.name[i] && b.name[i] in b.name;
    assert |a.name| == |b.name|;
    assert k[..|a.name|] == a.name && k[..|b.name|] == b.name;
    assert k[|a.name| + 1..] == a.version && k[|b.name| + 1..] == b.version;
  }

  lemma KeysTieInOrder(cfg: Config, kind: ListKind, reverse: bool, all: seq<Function>)
    requires kind.Versions? ==> forall f :: f in all ==> ':' !in f.name
    ensures KeysTie(Direction(SourceOrder(cfg, kind), reverse), KeyOf(kind), all)
  {
    OrdersWeak(cfg);
    forall x, y | x in all && y in all && KeyOf(kind)(x) == KeyOf(kind)(y)
      ensures !Direction(SourceOrder(cfg, kind), reverse)(x, y)
    {
      if kind.Versions? {
        VersionKeyInjective(x, y);
        SourceOrderReads(cfg, kind, reverse, x, y, x, x);
        assert !ListOrder(cfg)(x, x);
      } else {
        assert NameKey(x) == NameKey(y);
        assert ByName(x, y) == ByName(x, x);
      }
    }
  }

  lemma SameOrderSameTop(before: (Function, Function) -> bool, before': (Function, Function) -> bool,
                         S: set<Function>, n: nat, out: seq<Function>)
    requires forall x, y :: x in S && y in S ==> before(x, y) == before'(x, y)
    requires IsTop(before, S, n, out)
    ensures IsTop(before', S, n, out)
  {
    forall x | x in out
      ensures x in S
    {
      assert x in Elements(out);
    }
  }

  /** Between entries with different keys the proxy's order is the sources' order. */
  lemma OrdersAgree(cfg: Config, kind: ListKind, reverse: bool, all: seq<Function>, m: map<string, Function>)
    requires Merged(KeyOf(kind), all, m)
    ensures forall x, y :: x in m.Values && y in m.Values ==>
              Direction(ListOrder(cfg), reverse)(x, y) == Direction(SourceOrder(cfg, kind), reverse)(x, y)
  {
    var a := ListOrder(cfg);
    var b := SourceOrder(cfg, kind);
    forall x, y | x in m.Values && y in m.Values
      ensures a(x, y) == b(x, y)
    {
      OrdersWeak(cfg);
      if kind.Functions? {
        var k :| k in m && m[k] == x;
        var l :| l in m && m[l] == y;
        assert NameKey(x) == k && NameKey(y) == l;
        assert x == y || x.name != y.name;
        assert !a(x, x) && !ByName(x, x);
      }
    }
    if reverse {
      assert forall x, y :: Flip(a)(x, y) == a(y, x) && Flip(b)(x, y) == b(y, x);
    }
  }

  /** Sorting one function per name by name and version is sorting it by name. */
  lemma TopBySourceOrder(cfg: Config, kind: ListKind, reverse: bool, all: seq<Function>, m: map<string, Function>,
                         n: nat, out: seq<Function>)
    requires Merged(KeyOf(kind), all, m)
    ensures IsTop(Direction(ListOrder(cfg), reverse), m.Values, n, out)
            <==> IsTop(Direction(SourceOrder(cfg, kind), reverse), m.Values, n, out)
  {
    var a := Direction(ListOrder(cfg), reverse);
    var b := Direction(SourceOrder(cfg, kind), reverse);
    OrdersAgree(cfg, kind, reverse, all, m);
    if IsTop(a, m.Values, n, out) {
      SameOrderSameTop(a, b, m.Values, n, out);
    }
    if IsTop(b, m.Values, n, out) {
      SameOrderSameTop(b, a, m.Values, n, out);
    }
  }

  lemma SourcesSorted(cfg: Config, kind: ListKind, replies: seq<Reply>, reverse: bool)
    requires forall r :: r in replies ==> SourceSorted(cfg, kind, reverse, r.functions)
    ensures forall i :: 0 <= i < |replies| ==>
              StrictlySorted(Direction(SourceOrder(cfg, kind), reverse), Lists(replies)[i])
  {
    forall i | 0 <= i < |replies|
      ensures StrictlySorted(Direction(SourceOrder(cfg, kind), reverse), Lists(replies)[i])
    {
      TaggedSorted(cfg, kind, reverse, replies[i]);
    }
  }

  /** With priorities, and when versions are listed, serving less never makes the merge fail. */
  lemma ServingLessMergesToo(cfg: Config, kind: ListKind, replies: seq<Reply>, offset: nat, limit: nat)
    requires kind.Functions? ==> cfg.conflict.UsePriority?
    requires MergeReplies(cfg, kind, replies).Ok?
    ensures MergeReplies(cfg, kind, Served(replies, offset, limit)).Ok?
  {
    ServedLists(replies, offset, limit);
    WindowsAreSub(Lists(replies), offset, limit);
    LessMergesToo(cfg, kind, Flatten(Lists(replies)), Flatten(Windows(Lists(replies), offset, limit)));
  }

  /** A winner of the smaller merge competes with the full merge's winner of the same key. */
  lemma CutWinnersCompete(cfg: Config, kind: ListKind, replies: seq<Reply>, served: seq<Reply>)
    requires MergeReplies(cfg, kind, replies).Ok? && MergeReplies(cfg, kind, served).Ok?
    requires forall f :: f in Flatten(Lists(served)) ==> f in Flatten(Lists(replies))
    ensures var all := Flatten(Lists(replies));
            var full := MergeReplies(cfg, kind, replies).value;
            var cut := MergeReplies(cfg, kind, served).value;
            && Merged(KeyOf(kind), all, full)
            && Merged(KeyOf(kind), Flatten(Lists(served)), cut)
            && forall k :: k in cut ==> k in full && cut[k] in all && KeyOf(kind)(cut[k]) == k
  {
    MergeKeepsOnePerKey(cfg, kind, Flatten(Lists(replies)));
    MergeKeepsOnePerKey(cfg, kind, Flatten(Lists(served)));
  }

  /** Every source serves a beginning of its listing: `limit` entries at least, or all it has. */
  ghost predicate Serves(replies: seq<Reply>, served: seq<Reply>, limit: nat) {
    && |served| == |replies|
    && forall i :: 0 <= i < |replies| ==> ServesReply(replies[i], served[i], limit)
  }

  predicate ServesReply(reply: Reply, served: Reply, limit: nat) {
    && served.registry == reply.registry && served.functions <= reply.functions
    && (|served.functions| >= limit || served.functions == reply.functions)
  }

  /** As those do that cut at the limit. */
  lemma ServedServes(replies: seq<Reply>, limit: nat)
    ensures Serves(replies, Served(replies, 0, limit), limit)
  {
  }

  lemma ServesCuts(replies: seq<Reply>, served: seq<Reply>, limit: nat)
    requires Serves(replies, served, limit)
    ensures Cuts(Lists(replies), Lists(served), limit)
  {
    forall i | 0 <= i < |replies|
      ensures Lists(served)[i] <= Lists(replies)[i]
      ensures |Lists(served)[i]| >= limit || Lists(served)[i] == Lists(replies)[i]
    {
      assert ServesReply(replies[i], served[i], limit);
    }
  }

  /** Limit pushdown preserves meaning: if every source serves at least the first `limit` of its own
      listing and what is served merges, the proxy's first page is one it could have cut from the complete
      merge, and the other way round, entry by entry and so with the same winning registry. */
  lemma LimitPushdown(cfg: Config, kind: ListKind, replies: seq<Reply>, served: seq<Reply>, reverse: bool, limit: nat, out: seq<Function>)
    requires Listable(cfg, kind, replies, reverse)
    requires Serves(replies, served, limit) && MergeReplies(cfg, kind, served).Ok?
    ensures IsPage(Direction(ListOrder(cfg), reverse), MergeReplies(cfg, kind, replies).value.Values, 0, limit, out)
            <==> IsPage(Direction(ListOrder(cfg), reverse), MergeReplies(cfg, kind, served).value.Values, 0, limit, out)
  {
    var all, some := Flatten(Lists(replies)), Flatten(Lists(served));
    var before := Direction(SourceOrder(cfg, kind), reverse);
    var full := MergeReplies(cfg, kind, replies).value;
    var cut := MergeReplies(cfg, kind, served).value;
    ServesCuts(replies, served, limit);
    CutsServeMembers(Lists(replies), Lists(served), limit);
    CutWinnersCompete(cfg, kind, replies, served);
    SourcesSorted(cfg, kind, replies, reverse);
    KeysTieInOrder(cfg, kind, reverse, all);
    OrdersWeak(cfg);
    DirectionWeak(SourceOrder(cfg, kind), reverse);
    DirectionWeak(ListOrder(cfg), reverse);
    forall k | k in full && Candidates(KeyOf(kind), some, k) == Candidates(KeyOf(kind), all, k)
      ensures k in cut && cut[k] == full[k]
    {
      SameCandidatesSameWinner(cfg, kind, all, some, k);
      assert k in Only(full, k) && k in Only(cut, k);
    }
    LowEntriesAgree(before, KeyOf(kind), Lists(replies), Lists(served), limit, full, cut);
    TopsAgree(before, KeyOf(kind), limit, all, full, cut, out);
    TopBySourceOrder(cfg, kind, reverse, all, full, limit, out);
    TopBySourceOrder(cfg, kind, reverse, some, cut, limit, out);
    FirstPageIsTop(Direction(ListOrder(cfg), reverse), full.Values, limit, out);
    FirstPageIsTop(Direction(ListOrder(cfg), reverse), cut.Values, limit, out);
  }

  // ---------- offset pushdown ----------

  lemma MembersBefore<E(!new)>(before: (E, E) -> bool, S: set<E>, s: seq<E>, i: nat)
    requires StrictWeak(before) && IsListing(before, S, s) && i < |s|
    ensures |Ahead(before, S, s[i])| <= i
  {
    forall y | y in Ahead(before, S, s[i])
      ensures y in Elements(s[..i])
    {
      assert y in Elements(s);
      var j :| 0 <= j < |s| && s[j] == y;
      assert j < i;
      assert s[..i][j] == y;
    }
    ElementsSize(s[..i]);
    SubsetSize(Ahead(before, S, s[i]), Elements(s[..i]));
  }

  lemma {:induction false} WindowMember<E(!new)>(lists: seq<seq<E>>, offset: nat, limit: nat, y: E) returns (i: nat, p: nat)
    requires y in Flatten(Windows(lists, offset, limit))
    ensures i < |lists| && offset <= p < |lists[i]| && lists[i][p] == y
  {
    var window := Page(lists[0], offset, limit);
    if y in window {
      var q :| 0 <= q < |window| && window[q] == y;
      i, p := 0, offset + q;
    } else {
      i, p := WindowMember(lists[1..], offset, limit, y);
      i := i + 1;
    }
  }

  lemma ListedInFlatten<E(!new)>(lists: seq<seq<E>>, i: nat, p: nat)
    requires i < |lists| && p < |lists[i]|
    ensures lists[i][p] in Flatten(lists)
  {
    FlattenMembers(lists);
    assert lists[i][p] in lists[i];
  }

  /** What survives an offset comes strictly after the least winner. */
  lemma LeastIsSkipped(before: (Function, Function) -> bool, key: Function -> string, lists: seq<seq<Function>>,
                       full: map<string, Function>, offset: nat, limit: nat, least: Function, y: Function)
    requires StrictWeak(before) && KeysTie(before, key, Flatten(lists)) && Merged(key, Flatten(lists), full)
    requires forall i :: 0 <= i < |lists| ==> StrictlySorted(before, lists[i])
    requires forall w :: w in full.Values ==> !before(w, least)
    requires offset > 0 && y in Flatten(Windows(lists, offset, limit))
    ensures before(least, y)
  {
    var i, p := WindowMember(lists, offset, limit, y);
    var first := lists[i][0];
    assert before(first, lists[i][p]);
    ListedInFlatten(lists, i, 0);
    var w := full[key(first)];
    assert w in full.Values;
    assert !before(first, w) && !before(w, first);
  }

  /** Entries with different keys do not tie. */
  ghost predicate KeysApart(before: (Function, Function) -> bool, key: Function -> string, xs: seq<Function>) {
    forall x, y :: x in xs && y in xs && key(x) != key(y) ==> before(x, y) || before(y, x)
  }

  /** The order sees no more of an entry than its key. */
  lemma SameKeySameOrder(before: (Function, Function) -> bool, key: Function -> string, xs: seq<Function>,
                         w: Function, x: Function, y: Function)
    requires StrictWeak(before) && KeysTie(before, key, xs)
    requires w in xs && x in xs && key(w) == key(x) && before(x, y)
    ensures before(w, y)
  {
    assert before(x, w) || before(w, y);
  }

  /** What the two merges of strictly sorted sources have to do with each other. */
  ghost predicate Windowed(before: (Function, Function) -> bool, key: Function -> string, lists: seq<seq<Function>>,
                           offset: nat, limit: nat, full: map<string, Function>, cut: map<string, Function>) {
    && StrictWeak(before)
    && KeysTie(before, key, Flatten(lists)) && KeysApart(before, key, Flatten(lists))
    && Merged(key, Flatten(lists), full)
    && (forall i :: 0 <= i < |lists| ==> StrictlySorted(before, lists[i]))
    && Merged(key, Flatten(Windows(lists, offset, limit)), cut)
    && (forall k :: k in cut ==> k in full && cut[k] in Flatten(lists))
  }

  lemma SameListing(shown: (Function, Function) -> bool, before: (Function, Function) -> bool,
                    S: set<Function>, s: seq<Function>)
    requires forall x, y :: x in S && y in S ==> shown(x, y) == before(x, y)
    requires IsListing(shown, S, s)
    ensures IsListing(before, S, s)
  {
    forall x | x in s
      ensures x in S
    {
      assert x in Elements(s);
    }
  }

  /** A function that survived the offset competes with a winner of its key, after the least winner. */
  lemma SurvivorAt(before: (Function, Function) -> bool, key: Function -> string, lists: seq<seq<Function>>,
                   offset: nat, limit: nat, full: map<string, Function>, cut: map<string, Function>,
                   s: seq<Function>, y: Function)
    requires Windowed(before, key, lists, offset, limit, full, cut)
    requires IsListing(before, full.Values, s) && s != [] && offset > 0
    requires y in cut.Values
    ensures y in Flatten(lists) && key(y) in full && key(full[key(y)]) == key(y)
    ensures full[key(y)] in full.Values && full[key(y)] in Flatten(lists)
    ensures before(s[0], y) && key(s[0]) != key(y) && s[0] in Flatten(lists) && s[0] in full.Values
  {
    forall w | w in full.Values
      ensures !before(w, s[0])
    {
      assert w in Elements(s);
      var j :| 0 <= j < |s| && s[j] == w;
    }
    var k :| k in cut && cut[k] == y;
    assert key(cut[k]) == k && key(full[k]) == k;
    LeastIsSkipped(before, key, lists, full, offset, limit, s[0], y);
    assert s[0] in Elements(s);
    var l :| l in full && full[l] == s[0];
  }

  lemma DistinctKeysInMerge(key: Function -> string, xs: seq<Function>, m: map<string, Function>, x: Function, y: Function)
    requires Merged(key, xs, m) && x in m.Values && y in m.Values && x != y
    ensures key(x) != key(y)
  {
    var k :| k in m && m[k] == x;
    var l :| l in m && m[l] == y;
    assert key(m[k]) == k && key(m[l]) == l;
  }

  /** Entries of a merge come strictly one after the other. */
  lemma ListedStrictly(before: (Function, Function) -> bool, key: Function -> string, lists: seq<seq<Function>>,
                       offset: nat, limit: nat, full: map<string, Function>, cut: map<string, Function>,
                       t: seq<Function>, q: nat, r: nat)
    requires Windowed(before, key, lists, offset, limit, full, cut)
    requires IsListing(before, cut.Values, t) && q < r < |t|
    ensures t[q] in cut.Values && t[r] in cut.Values && key(t[q]) != key(t[r]) && before(t[q], t[r])
  {
    assert t[q] in Elements(t) && t[r] in Elements(t);
    DistinctKeysInMerge(key, Flatten(Windows(lists, offset, limit)), cut, t[q], t[r]);
    var k :| k in cut && cut[k] == t[q];
    var l :| l in cut && cut[l] == t[r];
  }

  /** The complete merge's winner of the key of a survivor belongs before what the survivor belongs before. */
  lemma WinnerAhead(before: (Function, Function) -> bool, key: Function -> string, lists: seq<seq<Function>>,
                    offset: nat, limit: nat, full: map<string, Function>, cut: map<string, Function>,
                    s: seq<Function>, y: Function, x: Function)
    requires Windowed(before, key, lists, offset, limit, full, cut)
    requires IsListing(before, full.Values, s) && s != [] && offset > 0
    requires y in cut.Values && before(y, x)
    ensures key(y) in full && key(full[key(y)]) == key(y) && full[key(y)] in Ahead(before, full.Values, x)
    ensures key(s[0]) != key(y)
  {
    SurvivorAt(before, key, lists, offset, limit, full, cut, s, y);
    SameKeySameOrder(before, key, Flatten(lists), full[key(y)], y, x);
  }

  /** Winners with the keys of different survivors, and one more, are that many. */
  lemma ManyWinners(key: Function -> string, full: map<string, Function>, t: seq<Function>, n: nat, least: Function,
                    ahead: set<Function>)
    requires n <= |t| && least in ahead
    requires forall q :: 0 <= q < n ==> key(t[q]) in full && key(full[key(t[q])]) == key(t[q]) && full[key(t[q])] in ahead
    requires forall q :: 0 <= q < n ==> key(least) != key(t[q])
    requires forall q, r :: 0 <= q < r < n ==> key(t[q]) != key(t[r])
    ensures |ahead| > n
  {
    var ws := seq(n, q requires 0 <= q < n => full[key(t[q])]);
    var many := [least] + ws;
    assert forall q :: 0 <= q < n ==> key(ws[q]) == key(t[q]);
    forall i, j | 0 <= i < j < |many|
      ensures many[i] != many[j]
    {
      assert many[j] == ws[j - 1];
      if i > 0 {
        assert many[i] == ws[i - 1];
      }
    }
    forall x | x in many
      ensures x in ahead
    {
      var i :| 0 <= i < |many| && many[i] == x;
      if i > 0 {
        assert x == ws[i - 1];
      }
    }
    ElementsSize(many);
    SubsetSize(Elements(many), ahead);
  }

  /** With an offset the `offset` entries shown before one that survived, and the least winner,
      all belong before it. */
  lemma ManyBefore(before: (Function, Function) -> bool, key: Function -> string, lists: seq<seq<Function>>,
                   offset: nat, limit: nat, full: map<string, Function>, cut: map<string, Function>,
                   s: seq<Function>, t: seq<Function>)
    requires Windowed(before, key, lists, offset, limit, full, cut)
    requires IsListing(before, full.Values, s) && s != [] && IsListing(before, cut.Values, t)
    requires 0 < offset < |t|
    ensures |Ahead(before, full.Values, t[offset])| > offset
  {
    var x := t[offset];
    assert x in Elements(t);
    SurvivorAt(before, key, lists, offset, limit, full, cut, s, x);
    var ahead := Ahead(before, full.Values, x);
    forall q | 0 <= q < offset
      ensures key(t[q]) in full && key(full[key(t[q])]) == key(t[q]) && full[key(t[q])] in ahead
      ensures key(s[0]) != key(t[q])
    {
      ListedStrictly(before, key, lists, offset, limit, full, cut, t, q, offset);
      WinnerAhead(before, key, lists, offset, limit, full, cut, s, t[q], x);
    }
    forall q, r | 0 <= q < r < offset
      ensures key(t[q]) != key(t[r])
    {
      ListedStrictly(before, key, lists, offset, limit, full, cut, t, q, r);
    }
    ManyWinners(key, full, t, offset, s[0], ahead);
  }

  lemma PagesDiffer(before: (Function, Function) -> bool, key: Function -> string, lists: seq<seq<Function>>,
                    offset: nat, limit: nat, full: map<string, Function>, cut: map<string, Function>,
                    s: seq<Function>, t: seq<Function>)
    requires Windowed(before, key, lists, offset, limit, full, cut)
    requires IsListing(before, full.Values, s) && IsListing(before, cut.Values, t)
    requires 0 < offset < |full.Values| && limit > 0
    ensures Page(s, offset, limit) != Page(t, offset, limit)
  {
    ElementsSize(s);
    var shown := Page(s, offset, limit);
    assert shown[0] == s[offset];
    if offset < |t| {
      assert Page(t, offset, limit)[0] == t[offset];
      MembersBefore(before, full.Values, s, offset);
      ManyBefore(before, key, lists, offset, limit, full, cut, s, t);
    }
  }

  /** No two different keys of the sources tie. Names never do; listed versions do when they differ only in
      build metadata or cannot be read. */
  ghost predicate Apart(cfg: Config, kind: ListKind, replies: seq<Reply>) {
    KeysApart(SourceOrder(cfg, kind), KeyOf(kind), Flatten(Lists(replies)))
  }

  lemma NamesApart(cfg: Config, replies: seq<Reply>)
    ensures Apart(cfg, Functions, replies)
  {
    StringLessTotal();
    forall x, y | NameKey(x) != NameKey(y)
      ensures ByName(x, y) || ByName(y, x)
    {
      assert StringLess(x.name, y.name) || StringLess(y.name, x.name);
    }
  }

  lemma BothWindowed(cfg: Config, kind: ListKind, replies: seq<Reply>, reverse: bool, offset: nat, limit: nat)
    requires Listable(cfg, kind, replies, reverse) && Apart(cfg, kind, replies)
    requires MergeReplies(cfg, kind, Served(replies, offset, limit)).Ok?
    ensures Windowed(Direction(SourceOrder(cfg, kind), reverse), KeyOf(kind), Lists(replies), offset, limit,
                     MergeReplies(cfg, kind, replies).value, MergeReplies(cfg, kind, Served(replies, offset, limit)).value)
  {
    var before := SourceOrder(cfg, kind);
    ServedLists(replies, offset, limit);
    WindowsServeMembers(Lists(replies), offset, limit);
    CutWinnersCompete(cfg, kind, replies, Served(replies, offset, limit));
    SourcesSorted(cfg, kind, replies, reverse);
    KeysTieInOrder(cfg, kind, reverse, Flatten(Lists(replies)));
    OrdersWeak(cfg);
    DirectionWeak(before, reverse);
    if reverse {
      assert forall x, y :: Flip(before)(x, y) == before(y, x);
    }
  }

  /** An offset applied by the sources and then again by the proxy skips too much. */
  lemma OffsetPageDiffers(cfg: Config, kind: ListKind, replies: seq<Reply>, reverse: bool, offset: nat, limit: nat, out: seq<Function>)
    requires Listable(cfg, kind, replies, reverse) && Apart(cfg, kind, replies)
    requires MergeReplies(cfg, kind, Served(replies, offset, limit)).Ok?
    requires offset > 0 && limit > 0 && |MergeReplies(cfg, kind, replies).value.Values| > offset
    requires IsPage(Direction(ListOrder(cfg), reverse), MergeReplies(cfg, kind, replies).value.Values, offset, limit, out)
    ensures !IsPage(Direction(ListOrder(cfg), reverse),
                    MergeReplies(cfg, kind, Served(replies, offset, limit)).value.Values, offset, limit, out)
  {
    var full := MergeReplies(cfg, kind, replies).value;
    var cut := MergeReplies(cfg, kind, Served(replies, offset, limit)).value;
    var shown := Direction(ListOrder(cfg), reverse);
    var before := Direction(SourceOrder(cfg, kind), reverse);
    BothWindowed(cfg, kind, replies, reverse, offset, limit);
    OrdersAgree(cfg, kind, reverse, Flatten(Lists(replies)), full);
    OrdersAgree(cfg, kind, reverse, Flatten(Windows(Lists(replies), offset, limit)), cut);
    var s :| IsListing(shown, full.Values, s) && out == Page(s, offset, limit);
    SameListing(shown, before, full.Values, s);
    forall t | IsListing(shown, cut.Values, t)
      ensures out != Page(t, offset, limit)
    {
      SameListing(shown, before, cut.Values, t);
      PagesDiffer(before, KeyOf(kind), Lists(replies), offset, limit, full, cut, s, t);
    }
  }

  lemma SourceFitsMerge(cfg: Config, kind: ListKind, replies: seq<Reply>, reverse: bool, i: nat)
    requires Listable(cfg, kind, replies, reverse) && i < |replies|
    ensures |Lists(replies)[i]| <= |MergeReplies(cfg, kind, replies).value.Values|
  {
    MergeKeepsOnePerKey(cfg, kind, Flatten(Lists(replies)));
    SourcesSorted(cfg, kind, replies, reverse);
    KeysTieInOrder(cfg, kind, reverse, Flatten(Lists(replies)));
    OrdersWeak(cfg);
    DirectionWeak(SourceOrder(cfg, kind), reverse);
    ListFitsMerge(Direction(SourceOrder(cfg, kind), reverse), KeyOf(kind), MergeReplies(cfg, kind, replies).value, Lists(replies), i);
  }

  lemma {:induction false} EmptyWindows<E>(lists: seq<seq<E>>, offset: nat, limit: nat)
    requires forall i :: 0 <= i < |lists| ==> |lists[i]| <= offset || limit == 0
    ensures Flatten(Windows(lists, offset, limit)) == []
  {
    if lists != [] {
      EmptyWindows(lists[1..], offset, limit);
    }
  }

  /** With the offset passed down and applied again, some answer is one the complete merge could have given. */
  ghost predicate SharesAnAnswer(cfg: Config, kind: ListKind, replies: seq<Reply>, reverse: bool, offset: nat, limit: nat)
    requires MergeReplies(cfg, kind, replies).Ok?
    requires MergeReplies(cfg, kind, Served(replies, offset, limit)).Ok?
  {
    var order := Direction(ListOrder(cfg), reverse);
    exists out :: IsPage(order, MergeReplies(cfg, kind, replies).value.Values, offset, limit, out)
                  && IsPage(order, MergeReplies(cfg, kind, Served(replies, offset, limit)).value.Values, offset, limit, out)
  }

  /** Nothing to skip or nothing to show. */
  lemma HarmlessOffsets(cfg: Config, kind: ListKind, replies: seq<Reply>, reverse: bool, offset: nat, limit: nat)
    requires Listable(cfg, kind, replies, reverse)
    requires MergeReplies(cfg, kind, Served(replies, offset, limit)).Ok?
    requires offset == 0 || limit == 0 || |MergeReplies(cfg, kind, replies).value.Values| <= offset
    ensures SharesAnAnswer(cfg, kind, replies, reverse, offset, limit)
  {
    var order := Direction(ListOrder(cfg), reverse);
    var full := MergeReplies(cfg, kind, replies).value;
    var cut := MergeReplies(cfg, kind, Served(replies, offset, limit)).value;
    OrdersWeak(cfg);
    DirectionWeak(ListOrder(cfg), reverse);
    var s := ListingExists(order, full.Values);
    ElementsSize(s);
    var out := Page(s, offset, limit);
    assert IsPage(order, full.Values, offset, limit, out);
    if offset == 0 {
      ServedServes(replies, limit);
      LimitPushdown(cfg, kind, replies, Served(replies, 0, limit), reverse, limit, out);
    } else {
      forall i | 0 <= i < |Lists(replies)|
        ensures |Lists(replies)[i]| <= offset || limit == 0
      {
        SourceFitsMerge(cfg, kind, replies, reverse, i);
      }
      EmptyWindows(Lists(replies), offset, limit);
      ServedLists(replies, offset, limit);
      assert cut == map[];
      assert IsListing(order, cut.Values, []);
      assert IsPage(order, cut.Values, offset, limit, []);
      assert out == [];
    }
  }

  /** When no two keys tie, and so always for functions, the offset passes down correctly exactly when there
      is nothing to skip or nothing to show. */
  lemma OffsetPushdown(cfg: Config, kind: ListKind, replies: seq<Reply>, reverse: bool, offset: nat, limit: nat)
    requires Listable(cfg, kind, replies, reverse) && (kind.Versions? ==> Apart(cfg, kind, replies))
    requires MergeReplies(cfg, kind, Served(replies, offset, limit)).Ok?
    ensures SharesAnAnswer(cfg, kind, replies, reverse, offset, limit)
            <==> offset == 0 || limit == 0 || |MergeReplies(cfg, kind, replies).value.Values| <= offset
  {
    if offset == 0 || limit == 0 || |MergeReplies(cfg, kind, replies).value.Values| <= offset {
      HarmlessOffsets(cfg, kind, replies, reverse, offset, limit);
    } else {
      NamesApart(cfg, replies);
      var order := Direction(ListOrder(cfg), reverse);
      forall p | IsPage(order, MergeReplies(cfg, kind, replies).value.Values, offset, limit, p)
        ensures !IsPage(order, MergeReplies(cfg, kind, Served(replies, offset, limit)).value.Values, offset, limit, p)
      {
        OffsetPageDiffers(cfg, kind, replies, reverse, offset, limit, p);
      }
    }
  }
}

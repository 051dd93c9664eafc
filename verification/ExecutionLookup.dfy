/** How an execution request finds its function. The executor asks the proxy for one version of a name; the
proxy asks the other registries for versions of that name, which some of them take for a part of a name, and
its own registry for a grouped listing, where names only have to contain the wanted one.
*/
module ExecutionLookup {
  import opened Catalog
  import opened Listing
  import opened Order
  import opened Pushdown
  import opened Registry
  import opened RegistryService
  import opened Results
  import opened Semver
  import E = Execution
  import Names
  import Strings
  import C = ChannelData
  import S = Streams
  import P = Proxy
  import PL = ProxyListing
  import PS = ProxyService

  // ---------- the internal registry's answer ----------

  /** The name contains the wanted one and the version meets the requirement. */
  predicate Eligible(env: Env, name: string, requirement: string, f: Function) {
    && Strings.Contains(f.name, name)
    && match env.parseRequirement(requirement) case None => false case Some(accepts) => accepts(f.version)
  }

  lemma RunnableIsEligible(env: Env, name: string, requirement: string, f: Function)
    ensures Runnable(env, name, requirement, f) <==> Eligible(env, name, requirement, f) && f.name == name
  {
    assert f.name == name ==> Strings.OccursAt(f.name, name, 0);
  }

  ghost function EligibleIn(env: Env, fs: set<Function>, name: string, requirement: string): set<Function> {
    set f | f in fs && Eligible(env, name, requirement, f)
  }

  lemma GroupedQuery(env: Env, fs: set<Function>, name: string, requirement: string)
    requires ParseRequirement(env, ExecutionQuery(name, requirement)).Ok?
    ensures Listed(env, fs, ExecutionQuery(name, requirement), true) == Newest(EligibleIn(env, fs, name, requirement))
  {
    var query := ExecutionQuery(name, requirement);
    forall f: Function
      ensures Retained(query, f)
    {
      assert Strings.OccursAt(f.publisher.email, "", 0);
    }
    var hits := set f | f in fs && Matching(true, name, ParseRequirement(env, query).value)(f);
    assert hits == EligibleIn(env, fs, name, requirement);
  }

  /** Every name has a newest function. */
  lemma NewestExists(S: set<Function>, f: Function) returns (g: Function)
    requires f in S
    ensures g in Newest(S) && g.name == f.name
  {
    var fs := EnumerationExists(S);
    GroupHoldsNewest(fs, |fs|);
    var m := GroupByName(fs, |fs|);
    assert f in Elements(fs);
    var i :| 0 <= i < |fs| && fs[i] == f;
    assert Covers(m, fs[i]);
    g := m[f.name];
    GroupedIsNewest(fs, m, g);
  }

  lemma NoneNewest(S: set<Function>)
    ensures Newest(S) == {} <==> S == {}
  {
    if f :| f in S {
      var g := NewestExists(S, f);
    }
  }

  /** `f` comes first among the eligible: nobody's name is before its, and it is the newest of its name. */
  ghost predicate FirstEligible(env: Env, stored: seq<Function>, name: string, requirement: string, f: Function) {
    && f in stored && Eligible(env, name, requirement, f)
    && (forall g :: g in stored && Eligible(env, name, requirement, g) ==> !StringLess(g.name, f.name))
    && (forall g :: g in stored && Eligible(env, name, requirement, g) && g.name == f.name && g != f ==> VersionLess(g.version, f.version))
  }

  lemma FirstOfNewest(env: Env, s: State, name: string, requirement: string, f: Function)
    requires Inv(env, s)
    requires var found := EligibleIn(env, Elements(s.functions), name, requirement);
             f in Newest(found) && forall g :: g in Newest(found) && g != f ==> !Before(g, f)
    ensures FirstEligible(env, s.functions, name, requirement, f)
  {
    var found := EligibleIn(env, Elements(s.functions), name, requirement);
    DistinctKeysAreUnique(s.functions);
    StringLessTotal();
    forall g | g in s.functions && Eligible(env, name, requirement, g)
      ensures !StringLess(g.name, f.name)
      ensures g.name == f.name && g != f ==> VersionLess(g.version, f.version)
    {
      assert g in found;
      var newest := NewestExists(found, g);
      assert newest == f || !Before(newest, f);
      VersionTrichotomy(g.version, f.version);
    }
  }

  /** The proxy's own registry answers with the eligible function whose name comes first, in its newest
      eligible version, and with nothing exactly if no stored function is eligible. */
  lemma InternalAnswer(env: Env, s: State, name: string, requirement: string, page: seq<Function>, answer: seq<Resolved>)
    requires Inv(env, s) && ParseRequirement(env, ExecutionQuery(name, requirement)).Ok?
    requires Answers(env, s, ExecutionQuery(name, requirement), true, page, answer)
    ensures page == [] <==> forall f :: f in s.functions ==> !Eligible(env, name, requirement, f)
    ensures page != [] ==> page == [page[0]] && FirstEligible(env, s.functions, name, requirement, page[0])
  {
    var S := Elements(s.functions);
    var found := EligibleIn(env, S, name, requirement);
    GroupedQuery(env, S, name, requirement);
    BeforeWeak();
    FirstPageIsTop(Before, Newest(found), 1, page);
    assert IsTop(Before, Newest(found), 1, page);
    if page == [] {
      assert |Newest(found)| == 0;
      NoneNewest(found);
      forall f | f in s.functions
        ensures !Eligible(env, name, requirement, f)
      {
        assert f !in found;
      }
    } else {
      assert page[0] in Elements(page);
      forall g | g in Newest(found) && g != page[0]
        ensures !Before(g, page[0])
      {
        assert g !in page;
      }
      FirstOfNewest(env, s, name, requirement, page[0]);
    }
  }

  /** Asked through the proxy with no other registry, what is found has the wanted name exactly if something
      runnable is stored and no eligible name comes before the wanted one; then it is the newest. If nothing
      runnable is stored, nothing is found exactly if nothing is eligible. */
  lemma FindsRunnableExactly(env: Env, s: State, name: string, requirement: string, page: seq<Function>, answer: seq<Resolved>)
    requires Inv(env, s) && ParseRequirement(env, ExecutionQuery(name, requirement)).Ok?
    requires Answers(env, s, ExecutionQuery(name, requirement), true, page, answer)
    ensures page != [] && Runnable(env, name, requirement, page[0])
            <==> (exists f :: f in s.functions && Runnable(env, name, requirement, f))
                 && forall g :: g in s.functions && Eligible(env, name, requirement, g) ==> !StringLess(g.name, name)
    ensures page != [] && Runnable(env, name, requirement, page[0]) ==>
              forall f :: f in s.functions && Runnable(env, name, requirement, f) && f != page[0] ==>
                VersionLess(f.version, page[0].version)
    ensures (forall f :: f in s.functions ==> !Runnable(env, name, requirement, f)) ==>
              (page == [] <==> forall f :: f in s.functions ==> !Eligible(env, name, requirement, f))
  {
    InternalAnswer(env, s, name, requirement, page, answer);
    StringLessTotal();
    forall f | f in s.functions
      ensures Runnable(env, name, requirement, f) <==> Eligible(env, name, requirement, f) && f.name == name
    {
      RunnableIsEligible(env, name, requirement, f);
    }
    if f :| f in s.functions && Runnable(env, name, requirement, f) {
      assert Eligible(env, name, requirement, f);
      if forall g :: g in s.functions && Eligible(env, name, requirement, g) ==> !StringLess(g.name, name) {
        assert !StringLess(f.name, page[0].name) && !StringLess(page[0].name, name);
      }
    }
  }

  // ---------- the proxy's answer ----------

  function ToProto(env: Env, f: Function): P.Function {
    P.Function(f.name, env.showVersion(f.version), f.metadata, f.body)
  }

  /** The entry is what the registry stores, its version printed. */
  ghost predicate Describes(env: Env, f: Function, entry: P.Function) {
    && entry.name == f.name && entry.version == env.showVersion(f.version) && entry.body == f.body
    && "registry" in entry.metadata && entry.metadata["registry"] == "internal"
    && forall k :: k != "registry" ==>
         (k in entry.metadata <==> k in f.metadata) && (k in f.metadata ==> entry.metadata[k] == f.metadata[k])
  }

  lemma ProtoDescribes(env: Env, f: Function)
    ensures Describes(env, f, P.Tag("internal", ToProto(env, f)))
  {
    P.TagMarks("internal", ToProto(env, f));
  }

  function Protos(env: Env, answer: seq<Resolved>): (r: seq<P.Function>)
    ensures |r| == |answer| && forall i :: 0 <= i < |answer| ==> r[i] == ToProto(env, answer[i].function_)
  {
    if answer == [] then [] else [ToProto(env, answer[0].function_)] + Protos(env, answer[1..])
  }

  /** What the proxy merges: the versions other registries have of the name, then its own answer. */
  function Sources(others: seq<P.Reply>, own: seq<P.Function>): seq<P.Reply> {
    others + [P.Reply("internal", own)]
  }

  /** All entries, tagged, in the order in which they are merged. */
  function Entries(replies: seq<P.Reply>): seq<P.Function> {
    Flatten(PL.Lists(replies))
  }

  ghost predicate HasName(entries: seq<P.Function>, name: string) {
    exists f :: f in entries && f.name == name
  }

  ghost predicate NoneBefore(entries: seq<P.Function>, name: string) {
    forall f :: f in entries ==> !StringLess(f.name, name)
  }

  ghost predicate Colonless(entries: seq<P.Function>) {
    forall f :: f in entries ==> ':' !in f.name
  }

  ghost predicate MergesTo(cfg: P.Config, replies: seq<P.Reply>, out: seq<P.Function>) {
    && PL.MergeReplies(cfg, P.Versions, replies).Ok?
    && IsPage(PL.ListOrder(cfg), PL.MergeReplies(cfg, P.Versions, replies).value.Values, 0, 1, out)
  }

  /** Of every entry the merge keeps one of the same name and version. */
  lemma KeptFor(cfg: P.Config, replies: seq<P.Reply>, f: P.Function) returns (w: P.Function)
    requires Colonless(Entries(replies)) && PL.MergeReplies(cfg, P.Versions, replies).Ok? && f in Entries(replies)
    ensures w in PL.MergeReplies(cfg, P.Versions, replies).value.Values && w.name == f.name && w.version == f.version
  {
    var m := PL.MergeReplies(cfg, P.Versions, replies).value;
    PL.MergeKeepsOnePerKey(cfg, P.Versions, Entries(replies));
    w := m[P.VersionKey(f)];
    PL.VersionKeyInjective(w, f);
  }

  lemma KeptAreEntries(cfg: P.Config, replies: seq<P.Reply>, w: P.Function)
    requires PL.MergeReplies(cfg, P.Versions, replies).Ok? && w in PL.MergeReplies(cfg, P.Versions, replies).value.Values
    ensures P.IsFirst(P.VersionKey, Entries(replies), |Entries(replies)|, P.VersionKey(w), w) && w in Entries(replies)
  {
    var m := PL.MergeReplies(cfg, P.Versions, replies).value;
    P.VersionMergeCharacterized(cfg, Entries(replies));
    var k :| k in m && m[k] == w;
    assert P.IsFirst(P.VersionKey, Entries(replies), |Entries(replies)|, k, w);
  }

  /** The first of what is merged comes before or with every entry. */
  lemma FirstIsLeast(cfg: P.Config, replies: seq<P.Reply>, out: seq<P.Function>, f: P.Function)
    requires Colonless(Entries(replies)) && MergesTo(cfg, replies, out) && f in Entries(replies)
    ensures |out| == 1 && !StringLess(f.name, out[0].name)
    ensures f.name == out[0].name ==> !VersionLess(PL.SortVersion(cfg, out[0]), PL.SortVersion(cfg, f))
  {
    var values := PL.MergeReplies(cfg, P.Versions, replies).value.Values;
    PL.OrdersWeak(cfg);
    FirstPageIsTop(PL.ListOrder(cfg), values, 1, out);
    assert IsTop(PL.ListOrder(cfg), values, 1, out);
    var w := KeptFor(cfg, replies, f);
    SubsetSize({w}, values);
    assert out[0] in out;
    assert w != out[0] ==> w !in out;
    assert !PL.ListOrder(cfg)(w, out[0]);
  }

  /** Whatever the registries answer: the proxy's first entry has the name that comes first of all listed, so
      the wanted name exactly if somebody lists it and nobody lists one before it. It is the newest listed of
      its name, from the first registry that has that version. */
  lemma FirstEntryExactly(cfg: P.Config, replies: seq<P.Reply>, name: string, out: seq<P.Function>)
    requires Colonless(Entries(replies)) && MergesTo(cfg, replies, out)
    ensures |out| <= 1 && (out == [] <==> Entries(replies) == [])
    ensures out != [] && out[0].name == name <==> HasName(Entries(replies), name) && NoneBefore(Entries(replies), name)
    ensures out != [] ==>
              && P.IsFirst(P.VersionKey, Entries(replies), |Entries(replies)|, P.VersionKey(out[0]), out[0])
              && forall f :: f in Entries(replies) && f.name == out[0].name ==> !VersionLess(PL.SortVersion(cfg, out[0]), PL.SortVersion(cfg, f))
  {
    var values := PL.MergeReplies(cfg, P.Versions, replies).value.Values;
    PL.OrdersWeak(cfg);
    FirstPageIsTop(PL.ListOrder(cfg), values, 1, out);
    StringLessTotal();
    forall f | f in Entries(replies)
      ensures |out| == 1 && !StringLess(f.name, out[0].name)
      ensures f.name == out[0].name ==> !VersionLess(PL.SortVersion(cfg, out[0]), PL.SortVersion(cfg, f))
    {
      FirstIsLeast(cfg, replies, out, f);
    }
    if Entries(replies) != [] {
      assert Entries(replies)[0] in Entries(replies);
    }
    if out != [] {
      assert out[0] in Elements(out);
      KeptAreEntries(cfg, replies, out[0]);
    }
  }

  // ---------- other registries and the own one ----------

  ghost predicate OthersHave(others: seq<P.Reply>, name: string) {
    exists i, p :: 0 <= i < |others| && 0 <= p < |others[i].functions| && others[i].functions[p].name == name
  }

  ghost predicate NoOtherBefore(others: seq<P.Reply>, name: string) {
    forall i, p :: 0 <= i < |others| && 0 <= p < |others[i].functions| ==> !StringLess(others[i].functions[p].name, name)
  }

  ghost predicate OthersColonless(others: seq<P.Reply>) {
    forall i, p :: 0 <= i < |others| && 0 <= p < |others[i].functions| ==> ':' !in others[i].functions[p].name
  }

  ghost predicate Silent(others: seq<P.Reply>) {
    forall i :: 0 <= i < |others| ==> others[i].functions == []
  }

  /** An entry is another registry's, or the own answer, tagged. */
  lemma EntryOf(others: seq<P.Reply>, own: seq<P.Function>, f: P.Function)
    requires |own| <= 1 && f in Entries(Sources(others, own))
    ensures (own != [] && f == P.Tag("internal", own[0]))
            || exists i, p :: 0 <= i < |others| && 0 <= p < |others[i].functions| && f == P.Tag(others[i].registry, others[i].functions[p])
  {
    var sources := Sources(others, own);
    FlattenMembers(PL.Lists(sources));
    var i :| 0 <= i < |sources| && f in PL.Lists(sources)[i];
    var p :| 0 <= p < |sources[i].functions| && PL.Lists(sources)[i][p] == f;
    if i < |others| {
      assert sources[i] == others[i];
    }
  }

  lemma OtherIsEntry(others: seq<P.Reply>, own: seq<P.Function>, i: nat, p: nat)
    requires i < |others| && p < |others[i].functions|
    ensures P.Tag(others[i].registry, others[i].functions[p]) in Entries(Sources(others, own))
  {
    var lists := PL.Lists(Sources(others, own));
    assert Sources(others, own)[i] == others[i];
    PL.ListedInFlatten(lists, i, p);
  }

  lemma OwnIsEntry(others: seq<P.Reply>, own: seq<P.Function>)
    requires |own| == 1
    ensures P.Tag("internal", own[0]) in Entries(Sources(others, own))
  {
    var lists := PL.Lists(Sources(others, own));
    assert Sources(others, own)[|others|] == P.Reply("internal", own);
    PL.ListedInFlatten(lists, |others|, 0);
  }

  /** What names the entries have. */
  lemma SourceNames(others: seq<P.Reply>, own: seq<P.Function>, name: string)
    requires |own| <= 1
    ensures Entries(Sources(others, own)) == [] <==> Silent(others) && own == []
    ensures HasName(Entries(Sources(others, own)), name) <==> OthersHave(others, name) || (own != [] && own[0].name == name)
    ensures NoneBefore(Entries(Sources(others, own)), name) <==> NoOtherBefore(others, name) && (own != [] ==> !StringLess(own[0].name, name))
    ensures OthersColonless(others) && (own != [] ==> ':' !in own[0].name) ==> Colonless(Entries(Sources(others, own)))
  {
    var all := Entries(Sources(others, own));
    forall i, p | 0 <= i < |others| && 0 <= p < |others[i].functions|
      ensures P.Tag(others[i].registry, others[i].functions[p]) in all
    {
      OtherIsEntry(others, own, i, p);
    }
    if own != [] {
      OwnIsEntry(others, own);
    }
    forall f | f in all
      ensures (own != [] && f == P.Tag("internal", own[0]))
              || exists i, p :: 0 <= i < |others| && 0 <= p < |others[i].functions| && f == P.Tag(others[i].registry, others[i].functions[p])
    {
      EntryOf(others, own, f);
    }
    if all != [] {
      assert all[0] in all;
    }
    if i :| 0 <= i < |others| && others[i].functions != [] {
      OtherIsEntry(others, own, i, 0);
    }
  }

  ghost predicate OnlyNamed(others: seq<P.Reply>, name: string) {
    forall i, p :: 0 <= i < |others| && 0 <= p < |others[i].functions| ==> others[i].functions[p].name == name
  }

  /** In particular, if the other registries have the wanted name only, what is found has another name exactly
      if the own registry answers with another name, and that comes first or no one else has anything; then it
      is that. */
  lemma FindsOtherNameExactly(cfg: P.Config, others: seq<P.Reply>, own: seq<P.Function>, name: string, out: seq<P.Function>)
    requires OnlyNamed(others, name) && |own| <= 1 && ':' !in name && (own != [] ==> ':' !in own[0].name)
    requires MergesTo(cfg, Sources(others, own), out)
    ensures out != [] && out[0].name != name <==> own != [] && own[0].name != name && (StringLess(own[0].name, name) || Silent(others))
    ensures out != [] && out[0].name != name ==> out == [P.Tag("internal", own[0])]
    ensures |out| <= 1 && (out == [] <==> own == [] && Silent(others))
  {
    SourceNames(others, own, name);
    FirstEntryExactly(cfg, Sources(others, own), name, out);
    StringLessTotal();
    if i :| 0 <= i < |others| && others[i].functions != [] {
      assert others[i].functions[0].name == name;
    }
    if out != [] {
      KeptAreEntries(cfg, Sources(others, own), out[0]);
      EntryOf(others, own, out[0]);
    }
  }

  lemma OneEntryMerges(cfg: P.Config, fs: seq<P.Function>)
    requires |fs| <= 1
    ensures P.Merge(cfg, P.Versions, fs).Ok? && P.Merge(cfg, P.Versions, fs).value.Values == Elements(fs)
  {
    var insert := P.InsertFunction(cfg, P.Versions);
    if fs == [] {
      assert P.TryFold(insert, fs, 0) == Ok(map[]);
    } else {
      var f := fs[0];
      var m := map[P.VersionKey(f) := f];
      assert P.TryFold(insert, fs, 0) == Ok(map[]);
      assert P.TryFold(insert, fs, 1) == Ok(m);
      assert m[P.VersionKey(f)] == f;
      assert m.Values == {f} == Elements(fs);
    }
  }

  lemma OnlyOwnEntries(own: seq<P.Function>)
    ensures Entries(Sources([], own)) == P.Tagged("internal", own)
  {
    assert Sources([], own) == [P.Reply("internal", own)];
    var tagged := P.Tagged("internal", own);
    assert PL.Lists([P.Reply("internal", own)]) == [tagged] + [];
    assert Flatten([tagged] + []) == tagged + [];
    assert tagged + [] == tagged;
  }

  /** With no other registry, what the proxy finds is its own registry's answer, tagged. */
  lemma OwnAnswerPasses(cfg: P.Config, own: seq<P.Function>, out: seq<P.Function>)
    requires |own| <= 1
    ensures PL.MergeReplies(cfg, P.Versions, Sources([], own)).Ok?
    ensures IsPage(PL.ListOrder(cfg), PL.MergeReplies(cfg, P.Versions, Sources([], own)).value.Values, 0, 1, out)
            <==> out == P.Tagged("internal", own)
  {
    OnlyOwnEntries(own);
    OneEntryMerges(cfg, P.Tagged("internal", own));
    OnePage(PL.ListOrder(cfg), P.Tagged("internal", own), out);
  }

  lemma OnePage(before: (P.Function, P.Function) -> bool, s: seq<P.Function>, out: seq<P.Function>)
    requires |s| <= 1
    ensures IsPage(before, Elements(s), 0, 1, out) <==> out == s
  {
    assert IsListing(before, Elements(s), s) && Page(s, 0, 1) == s;
    forall t | IsListing(before, Elements(s), t)
      ensures t == s
    {
      ElementsSize(t);
      ElementsSize(s);
      if s != [] {
        assert t[0] in Elements(t);
      }
    }
  }

  // ---------- queueing by name ----------

  /** What the proxy can answer when asked for one version of a name that meets the requirement. */
  ghost predicate ProxyAnswers(cfg: P.Config, env: Env, s: State, others: seq<P.Reply>, name: string, requirement: string, out: seq<P.Function>)
    requires ParseRequirement(env, ExecutionQuery(name, requirement)).Ok?
  {
    exists page, answer ::
      Answers(env, s, ExecutionQuery(name, requirement), true, page, answer) && MergesTo(cfg, Sources(others, Protos(env, answer)), out)
  }

  /** With no other registry: the function found is the first eligible one, with the wanted name exactly if
      something runnable is stored and no eligible name comes before; nothing is found exactly if nothing is
      eligible. */
  lemma LookupExactly(cfg: P.Config, env: Env, s: State, name: string, requirement: string, out: seq<P.Function>)
    requires Inv(env, s) && ParseRequirement(env, ExecutionQuery(name, requirement)).Ok?
    requires ProxyAnswers(cfg, env, s, [], name, requirement, out)
    ensures out == [] <==> forall f :: f in s.functions ==> !Eligible(env, name, requirement, f)
    ensures out != [] ==> exists f :: FirstEligible(env, s.functions, name, requirement, f) && out == [P.Tag("internal", ToProto(env, f))]
                                      && Describes(env, f, out[0])
    ensures out != [] && out[0].name == name
            <==> (exists f :: f in s.functions && Runnable(env, name, requirement, f))
                 && forall g :: g in s.functions && Eligible(env, name, requirement, g) ==> !StringLess(g.name, name)
  {
    var page, answer :| Answers(env, s, ExecutionQuery(name, requirement), true, page, answer)
                        && MergesTo(cfg, Sources([], Protos(env, answer)), out);
    InternalAnswer(env, s, name, requirement, page, answer);
    FindsRunnableExactly(env, s, name, requirement, page, answer);
    PagePasses(cfg, env, page, answer, out);
    if page != [] {
      assert FirstEligible(env, s.functions, name, requirement, page[0]);
      ProtoDescribes(env, page[0]);
      RunnableIsEligible(env, name, requirement, page[0]);
    }
  }

  lemma PagePasses(cfg: P.Config, env: Env, page: seq<Function>, answer: seq<Resolved>, out: seq<P.Function>)
    requires |page| <= 1 && |answer| == |page| && (page != [] ==> answer[0].function_ == page[0])
    requires MergesTo(cfg, Sources([], Protos(env, answer)), out)
    ensures out == if page == [] then [] else [P.Tag("internal", ToProto(env, page[0]))]
  {
    OwnAnswerPasses(cfg, Protos(env, answer), out);
  }

  /** The stored functions print their versions so that they parse back. */
  ghost predicate ReadsBack(cfg: P.Config, env: Env, s: State) {
    forall f :: f in s.functions ==> cfg.parse(env.showVersion(f.version)) == Some(f.version)
  }

  ghost predicate NoEligibleBefore(env: Env, s: State, name: string, requirement: string) {
    forall g :: g in s.functions && Eligible(env, name, requirement, g) ==> !StringLess(g.name, name)
  }

  ghost predicate SomeRunnable(env: Env, s: State, name: string, requirement: string) {
    exists f :: f in s.functions && Runnable(env, name, requirement, f)
  }

  /** The own answer has the wanted name, or one before it, exactly as the stored functions say. */
  lemma OwnNames(env: Env, s: State, name: string, requirement: string, page: seq<Function>)
    requires page == [] <==> forall f :: f in s.functions ==> !Eligible(env, name, requirement, f)
    requires page != [] ==> page == [page[0]] && FirstEligible(env, s.functions, name, requirement, page[0])
    ensures page == [] || !StringLess(page[0].name, name) <==> NoEligibleBefore(env, s, name, requirement)
    ensures page != [] && page[0].name == name ==> Runnable(env, name, requirement, page[0])
    ensures SomeRunnable(env, s, name, requirement) && NoEligibleBefore(env, s, name, requirement) ==> page != [] && page[0].name == name
  {
    StringLessTotal();
    forall f | f in s.functions
      ensures Runnable(env, name, requirement, f) <==> Eligible(env, name, requirement, f) && f.name == name
    {
      RunnableIsEligible(env, name, requirement, f);
    }
    if page != [] {
      RunnableIsEligible(env, name, requirement, page[0]);
      forall g | g in s.functions && Eligible(env, name, requirement, g) && !StringLess(page[0].name, name)
        ensures !StringLess(g.name, name)
      {
        assert !StringLess(g.name, page[0].name);
      }
    }
  }

  /** The names listed when the own registry answers from what it stores. */
  lemma NamesInAnswer(cfg: P.Config, env: Env, s: State, others: seq<P.Reply>, name: string, requirement: string, page: seq<Function>, own: seq<P.Function>)
    requires page == [] <==> forall f :: f in s.functions ==> !Eligible(env, name, requirement, f)
    requires page != [] ==> page == [page[0]] && FirstEligible(env, s.functions, name, requirement, page[0])
    requires |own| == |page| && (page != [] ==> own[0] == ToProto(env, page[0]))
    ensures Entries(Sources(others, own)) == [] <==> Silent(others) && forall f :: f in s.functions ==> !Eligible(env, name, requirement, f)
    ensures HasName(Entries(Sources(others, own)), name) && NoneBefore(Entries(Sources(others, own)), name)
            <==> && (OthersHave(others, name) || SomeRunnable(env, s, name, requirement))
                 && NoOtherBefore(others, name) && NoEligibleBefore(env, s, name, requirement)
  {
    SourceNames(others, own, name);
    OwnNames(env, s, name, requirement, page);
  }

  /** Asked through the proxy, whatever the other registries answer: what is found has the wanted name exactly
      if another registry lists it or something runnable is stored, and neither another registry lists nor the
      own one has eligible a name before it. Nothing is found exactly if nobody lists anything and nothing is
      eligible. */
  lemma LookupAmongExactly(cfg: P.Config, env: Env, s: State, others: seq<P.Reply>, name: string, requirement: string, out: seq<P.Function>)
    requires Inv(env, s) && ParseRequirement(env, ExecutionQuery(name, requirement)).Ok?
    requires OthersColonless(others) && forall f :: f in s.functions ==> ':' !in f.name
    requires ProxyAnswers(cfg, env, s, others, name, requirement, out)
    ensures out == [] <==> Silent(others) && forall f :: f in s.functions ==> !Eligible(env, name, requirement, f)
    ensures out != [] && out[0].name == name
            <==> && (OthersHave(others, name) || SomeRunnable(env, s, name, requirement))
                 && NoOtherBefore(others, name) && NoEligibleBefore(env, s, name, requirement)
  {
    var page, answer :| Answers(env, s, ExecutionQuery(name, requirement), true, page, answer)
                        && MergesTo(cfg, Sources(others, Protos(env, answer)), out);
    var own := Protos(env, answer);
    InternalAnswer(env, s, name, requirement, page, answer);
    SourceNames(others, own, name);
    NamesInAnswer(cfg, env, s, others, name, requirement, page, own);
    FirstEntryExactly(cfg, Sources(others, own), name, out);
  }

  lemma ListedAreNotNewer(cfg: P.Config, others: seq<P.Reply>, own: seq<P.Function>, out: seq<P.Function>)
    requires |own| <= 1 && Colonless(Entries(Sources(others, own))) && MergesTo(cfg, Sources(others, own), out) && out != []
    ensures forall i, p :: 0 <= i < |others| && 0 <= p < |others[i].functions| && others[i].functions[p].name == out[0].name ==>
              !VersionLess(PL.SortVersion(cfg, out[0]), PL.SortVersion(cfg, others[i].functions[p]))
    ensures own != [] && own[0].name == out[0].name ==> !VersionLess(PL.SortVersion(cfg, out[0]), PL.SortVersion(cfg, own[0]))
  {
    forall i, p | 0 <= i < |others| && 0 <= p < |others[i].functions| && others[i].functions[p].name == out[0].name
      ensures !VersionLess(PL.SortVersion(cfg, out[0]), PL.SortVersion(cfg, others[i].functions[p]))
    {
      OtherIsEntry(others, own, i, p);
      FirstIsLeast(cfg, Sources(others, own), out, P.Tag(others[i].registry, others[i].functions[p]));
    }
    if own != [] {
      OwnIsEntry(others, own);
      FirstIsLeast(cfg, Sources(others, own), out, P.Tag("internal", own[0]));
    }
  }

  lemma RunnableAreNotNewer(cfg: P.Config, env: Env, s: State, name: string, requirement: string, page: seq<Function>, out: P.Function)
    requires page != [] ==> FirstEligible(env, s.functions, name, requirement, page[0]) && page[0].name == name
    requires page != [] ==> !VersionLess(PL.SortVersion(cfg, out), page[0].version)
    requires SomeRunnable(env, s, name, requirement) ==> page != []
    ensures forall f :: f in s.functions && Runnable(env, name, requirement, f) ==> !VersionLess(PL.SortVersion(cfg, out), f.version)
  {
    forall f | f in s.functions && Runnable(env, name, requirement, f)
      ensures !VersionLess(PL.SortVersion(cfg, out), f.version)
    {
      RunnableIsEligible(env, name, requirement, f);
      NoNewerThan(PL.SortVersion(cfg, out), page[0].version, f.version);
    }
  }

  /** And when it has the wanted name it is the newest: no registry lists a newer version of that name, and none
      that meets the requirement is stored. */
  lemma FoundIsNewest(cfg: P.Config, env: Env, s: State, others: seq<P.Reply>, name: string, requirement: string, out: seq<P.Function>)
    requires Inv(env, s) && ParseRequirement(env, ExecutionQuery(name, requirement)).Ok?
    requires OthersColonless(others) && (forall f :: f in s.functions ==> ':' !in f.name) && ReadsBack(cfg, env, s)
    requires ProxyAnswers(cfg, env, s, others, name, requirement, out) && out != [] && out[0].name == name
    ensures forall i, p :: 0 <= i < |others| && 0 <= p < |others[i].functions| && others[i].functions[p].name == name ==>
              !VersionLess(PL.SortVersion(cfg, out[0]), PL.SortVersion(cfg, others[i].functions[p]))
    ensures forall f :: f in s.functions && Runnable(env, name, requirement, f) ==> !VersionLess(PL.SortVersion(cfg, out[0]), f.version)
  {
    LookupAmongExactly(cfg, env, s, others, name, requirement, out);
    var page: seq<Function>, answer: seq<Resolved> :|
      Answers(env, s, ExecutionQuery(name, requirement), true, page, answer) && MergesTo(cfg, Sources(others, Protos(env, answer)), out);
    var own := Protos(env, answer);
    InternalAnswer(env, s, name, requirement, page, answer);
    OwnNames(env, s, name, requirement, page);
    SourceNames(others, own, name);
    ListedAreNotNewer(cfg, others, own, out);
    if SomeRunnable(env, s, name, requirement) {
      RunnableAreNotNewer(cfg, env, s, name, requirement, page, out[0]);
    }
  }

  lemma NoNewerThan(a: Version, b: Version, c: Version)
    requires !VersionLess(a, b) && (c == b || VersionLess(c, b))
    ensures !VersionLess(a, c)
  {
    VersionLessWeak();
  }

  lemma ShapesHaveNoColon(name: string)
    requires Names.NameShape(name)
    ensures ':' !in name
  {
    forall c | c in name
      ensures c != ':'
    {
      var i :| 0 <= i < |name| && name[i] == c;
      assert Names.AlnumDash(name[i]);
    }
  }

  /** In every run of the own registry names have no colon. */
  lemma {:induction false} StoredNamesAreColonless(env: Env, ops: seq<Op>)
    ensures forall f :: f in Run(env, ops).functions ==> ':' !in f.name
  {
    if ops != [] {
      var s := Run(env, ops[..|ops| - 1]);
      StoredNamesAreColonless(env, ops[..|ops| - 1]);
      match ops[|ops| - 1]
      case Register(data, now) =>
        if EarlyCheck(env, data).Ok? {
          Names.ValidatorsAgree(data.name);
          ShapesHaveNoColon(data.name);
        }
      case Attach(data, id, now, pathOk) =>
    }
  }

  // ---------- an example ----------

  const SOMEBODY := Publisher("somebody", "somebody@example.org")
  const HELLO := FunctionData("hello", "1.0.0", map[], true, Some(SOMEBODY), None, [], 0)
  const AHELLO := FunctionData("ahello", "1.0.0", map[], true, Some(SOMEBODY), None, [], 0)

  /** What the registry makes of either. */
  function Stored(env: Env, data: FunctionData, now: nat): Function
    requires StoredVersion(env, "1.0.0").Some?
  {
    Function(data.name, StoredVersion(env, "1.0.0").value, map["_dev-checksum" := env.digest("")], SOMEBODY, None, [], now, 0)
  }

  /** Registering "ahello", after "hello" or alone. */
  function Registrations(both: bool, t: nat, u: nat): seq<Op> {
    if both then [Register(HELLO, t), Register(AHELLO, u)] else [Register(AHELLO, u)]
  }

  lemma AhelloComesFirst()
    ensures Strings.Contains("ahello", "hello") && StringLess("ahello", "hello") && "ahello" != "hello"
  {
    assert "ahello"[1..1 + 5] == "hello";
    assert Strings.OccursAt("ahello", "hello", 1);
    assert "ahello"[0] == 'a' && "hello"[0] == 'h';
  }

  lemma BothNamesAreValid()
    ensures Names.ValidateByBytes("hello").Ok? && Names.ValidateByBytes("ahello").Ok?
  {
    Names.ValidatorsAgree("hello");
    Names.ValidatorsAgree("ahello");
  }

  lemma RegistersExample(env: Env, s: State, data: FunctionData, now: nat)
    requires data == HELLO || data == AHELLO
    requires StoredVersion(env, "1.0.0").Some?
    ensures Step(env, s, Register(data, now)).functions
            == Without(s.functions, data.name, StoredVersion(env, "1.0.0").value) + [Stored(env, data, now)]
  {
    BothNamesAreValid();
    assert data.attachments + CodeIds(data.code) == [];
    assert data.metadata["_dev-checksum" := env.digest("")] == map["_dev-checksum" := env.digest("")];
  }

  lemma ExampleIsStored(env: Env, both: bool, t: nat, u: nat)
    requires StoredVersion(env, "1.0.0").Some?
    ensures Run(env, Registrations(both, t, u)).functions
            == if both then [Stored(env, HELLO, t), Stored(env, AHELLO, u)] else [Stored(env, AHELLO, u)]
  {
    AhelloComesFirst();
    var ops := Registrations(both, t, u);
    if both {
      assert ops[..1] == [Register(HELLO, t)];
      FirstIsStored(env, HELLO, t);
      var s := Run(env, ops[..1]);
      RegistersExample(env, s, AHELLO, u);
      OtherNameStays(Stored(env, HELLO, t), "ahello", StoredVersion(env, "1.0.0").value);
      assert [Stored(env, HELLO, t)] + [Stored(env, AHELLO, u)] == [Stored(env, HELLO, t), Stored(env, AHELLO, u)];
    } else {
      FirstIsStored(env, AHELLO, u);
    }
  }

  lemma OtherNameStays(f: Function, name: string, version: Version)
    requires f.name != name
    ensures Without([f], name, version) == [f]
  {
    assert [f][1..] == [];
  }

  lemma FirstIsStored(env: Env, data: FunctionData, now: nat)
    requires data == HELLO || data == AHELLO
    requires StoredVersion(env, "1.0.0").Some?
    ensures Run(env, [Register(data, now)]).functions == [Stored(env, data, now)]
  {
    var ops := [Register(data, now)];
    assert ops[..0] == [];
    RegistersExample(env, Run(env, []), data, now);
  }

  /** The proxy always has an answer when there is no other registry. */
  lemma SomeAnswer(cfg: P.Config, env: Env, s: State, name: string, requirement: string) returns (out: seq<P.Function>)
    requires Inv(env, s) && ParseRequirement(env, ExecutionQuery(name, requirement)).Ok?
    ensures ProxyAnswers(cfg, env, s, [], name, requirement, out)
  {
    var query := ExecutionQuery(name, requirement);
    var listed := Listed(env, Elements(s.functions), query, true);
    BeforeWeak();
    var listing := ListingExists(Before, listed);
    var page := Page(listing, 0, 1);
    assert IsPage(Direction(Before, false), listed, 0, 1, page);
    ShownAreStored(Direction(Before, false), listed, 0, 1, page);
    var answer := ResolveAll(env, s.attachments, page);
    ResolveAllDropsNothing(env, s.attachments, page);
    assert Answers(env, s, query, true, page, answer);
    out := P.Tagged("internal", Protos(env, answer));
    OwnAnswerPasses(cfg, Protos(env, answer), out);
    assert MergesTo(cfg, Sources([], Protos(env, answer)), out);
  }

  /** Asked for "hello" when both are registered, and also when "hello" is not, the proxy answers with "ahello"
      and with nothing else. */
  lemma FindsAhello(cfg: P.Config, env: Env, both: bool, t: nat, u: nat, out: seq<P.Function>)
    requires StoredVersion(env, "1.0.0").Some?
    requires env.parseRequirement("*").Some? && env.parseRequirement("*").value(StoredVersion(env, "1.0.0").value)
    ensures ProxyAnswers(cfg, env, Run(env, Registrations(both, t, u)), [], "hello", "*", out)
            <==> out == [P.Tag("internal", ToProto(env, Stored(env, AHELLO, u)))]
    ensures both ==> SomeRunnable(env, Run(env, Registrations(both, t, u)), "hello", "*")
  {
    var s := Run(env, Registrations(both, t, u));
    var ahello := Stored(env, AHELLO, u);
    RunKeepsInv(env, Registrations(both, t, u));
    ExampleIsStored(env, both, t, u);
    forall other | ProxyAnswers(cfg, env, s, [], "hello", "*", other)
      ensures other == [P.Tag("internal", ToProto(env, ahello))]
    {
      LookupExactly(cfg, env, s, "hello", "*", other);
      OnlyAhelloIsFirst(env, s, both, t, u);
    }
    var answer := SomeAnswer(cfg, env, s, "hello", "*");
    if both {
      assert Stored(env, HELLO, t) in s.functions && Runnable(env, "hello", "*", Stored(env, HELLO, t));
    }
  }

  lemma OnlyAhelloIsFirst(env: Env, s: State, both: bool, t: nat, u: nat)
    requires StoredVersion(env, "1.0.0").Some?
    requires env.parseRequirement("*").Some? && env.parseRequirement("*").value(StoredVersion(env, "1.0.0").value)
    requires s.functions == if both then [Stored(env, HELLO, t), Stored(env, AHELLO, u)] else [Stored(env, AHELLO, u)]
    ensures Stored(env, AHELLO, u) in s.functions && Eligible(env, "hello", "*", Stored(env, AHELLO, u))
    ensures forall f :: FirstEligible(env, s.functions, "hello", "*", f) ==> f == Stored(env, AHELLO, u)
  {
    AhelloComesFirst();
    assert Stored(env, AHELLO, u) in s.functions;
  }

  // ---------- queueing ----------

  function DescribeAll(describe: P.Function -> E.Descriptor, fs: seq<P.Function>): (r: seq<E.Descriptor>)
    ensures |r| == |fs| && forall i :: 0 <= i < |fs| ==> r[i] == describe(fs[i])
  {
    if fs == [] then [] else [describe(fs[0])] + DescribeAll(describe, fs[1..])
  }

  /** Every registry has answered. */
  function Fetches(others: seq<P.Reply>, own: seq<P.Function>): (fetched: seq<P.Fetched>)
    ensures |fetched| == |others| + 1 && fetched[|others|] == P.Answered(P.Reply("internal", own))
    ensures forall i :: 0 <= i < |others| ==> fetched[i] == P.Answered(others[i])
  {
    if others == [] then [P.Answered(P.Reply("internal", own))] else [P.Answered(others[0])] + Fetches(others[1..], own)
  }

  lemma RepliesOfSources(others: seq<P.Reply>, own: seq<P.Function>)
    ensures forall f :: f in Fetches(others, own) ==> f.Answered?
    ensures PS.Replies(Fetches(others, own)) == Sources(others, own)
  {
    var fetched := Fetches(others, own);
    forall f | f in fetched
      ensures f.Answered?
    {
      var i :| 0 <= i < |fetched| && fetched[i] == f;
    }
  }

  /** `list_versions` of the proxy, when the other registries answer. */
  method AskProxy(cfg: P.Config, others: seq<P.Reply>, internal: RegistryService, name: string, requirement: string)
    returns (found: Result<seq<P.Function>, E.Status>)
    requires internal.Valid()
    ensures ParseRequirement(internal.env, ExecutionQuery(name, requirement)).Err? ==> found == Err(E.RegistryFailed)
    ensures found.Err? ==> found == Err(E.RegistryFailed)
    ensures found.Ok? ==> ParseRequirement(internal.env, ExecutionQuery(name, requirement)).Ok?
                          && ProxyAnswers(cfg, internal.env, internal.Current(), others, name, requirement, found.value)
  {
    var query := ExecutionQuery(name, requirement);
    var listed := internal.List(query, true);
    if listed.Err? {
      return Err(E.RegistryFailed);
    }
    var own := Protos(internal.env, listed.value);
    RepliesOfSources(others, own);
    var merged := PS.List(cfg, P.Versions, Fetches(others, own), Some(P.Ordering(false, 0, 1)));
    if merged.Err? {
      return Err(E.RegistryFailed);
    }
    ghost var page :| Answers(internal.env, internal.Current(), query, true, page, listed.value);
    found := Ok(merged.value);
  }

  /** What becomes of a request when the proxy answers `out`: its first function is queued, exactly if the
      arguments fit it. */
  ghost predicate Queues(describe: P.Function -> E.Descriptor, out: seq<P.Function>, arguments: map<string, C.TypedData>,
                         id: E.Uuid, r: Result<E.Uuid, E.Status>, queue: map<E.Uuid, E.QueuedFunction>)
  {
    if out == [] then r == Err(E.FunctionNotFound)
    else
      && (r == Ok(id) <==> S.Fits(arguments, describe(out[0]).required, describe(out[0]).optional))
      && (r.Ok? ==> id in queue && queue[id] == E.QueuedFunction(describe(out[0]), arguments, true))
      && (r.Err? ==> r.error.InvalidArguments?
                     && S.Reports(r.error.problems, arguments, describe(out[0]).required, describe(out[0]).optional))
  }

  /** `queue_function`: the proxy's first answer, then the queue. */
  method QueueByName(cfg: P.Config, others: seq<P.Reply>, internal: RegistryService, service: E.ExecutionService,
                     describe: P.Function -> E.Descriptor, name: string, requirement: string,
                     arguments: map<string, C.TypedData>, id: E.Uuid)
    returns (r: Result<E.Uuid, E.Status>)
    requires internal.Valid() && service.Valid() && E.Queued(id) !in service.history
    modifies service
    ensures service.Valid()
    ensures ParseRequirement(internal.env, ExecutionQuery(name, requirement)).Err? ==> r == Err(E.RegistryFailed)
    ensures ParseRequirement(internal.env, ExecutionQuery(name, requirement)).Ok? ==>
              r == Err(E.RegistryFailed)
              || exists out :: ProxyAnswers(cfg, internal.env, internal.Current(), others, name, requirement, out)
                               && Queues(describe, out, arguments, id, r, service.queue)
  {
    var found := AskProxy(cfg, others, internal, name, requirement);
    if found.Err? {
      return Err(E.RegistryFailed);
    }
    r := service.QueueFunction(Ok(DescribeAll(describe, found.value)), arguments, id);
    assert Queues(describe, found.value, arguments, id, r, service.queue);
  }
}

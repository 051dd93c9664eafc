/** The proxy registry: lists and looks up functions in several registries at once.

External registries come first, in priority order; the internal one is last. A
source is any listing it might serve. Parsing a version string belongs to the
`semver` crate and is a parameter.
*/
module Proxy {
  import opened Results
  import opened Semver

  datatype ConflictResolution = Error | UsePriority

  datatype ListKind = Functions | Versions

  datatype Config = Config(conflict: ConflictResolution, parse: string -> Option<Version>)

  datatype Function = Function(name: string, version: string, metadata: map<string, string>, body: nat)

  datatype ProxyError =
    | ConflictingFunctions(key: string, incoming: string, existing: string)
    | VersionParseError(version: string)

  datatype Ordering = Ordering(reverse: bool, offset: nat, limit: nat)

  const DEFAULT_ORDERING := Ordering(false, 0, 100)

  /** One registry's answer to a list request. */
  datatype Reply = Reply(registry: string, functions: seq<Function>)

  datatype Fetched = Answered(reply: Reply) | Failed(status: string)

  datatype Status = Upstream(status: string) | AlreadyExists(error: ProxyError) | NotFound

  function RegistryOf(f: Function): string {
    if "registry" in f.metadata then f.metadata["registry"] else "unknown"
  }

  function Tag(registry: string, f: Function): Function {
    f.(metadata := f.metadata["registry" := registry])
  }

  /** The entry is what the registry listed, with its name under "registry" and all other metadata as they were. */
  ghost predicate MarkedFrom(registry: string, listed: Function, f: Function) {
    && f.name == listed.name && f.version == listed.version && f.body == listed.body
    && "registry" in f.metadata && f.metadata["registry"] == registry
    && forall k :: k != "registry" ==>
         (k in f.metadata <==> k in listed.metadata)
         && (k in listed.metadata ==> f.metadata[k] == listed.metadata[k])
  }

  lemma TagMarks(registry: string, listed: Function)
    ensures MarkedFrom(registry, listed, Tag(registry, listed))
    ensures RegistryOf(Tag(registry, listed)) == registry
  {
  }

  function Tagged(registry: string, fs: seq<Function>): (r: seq<Function>)
    ensures |r| == |fs| && forall i :: 0 <= i < |fs| ==> r[i] == Tag(registry, fs[i])
  {
    if fs == [] then [] else [Tag(registry, fs[0])] + Tagged(registry, fs[1..])
  }

  function NameKey(f: Function): string { f.name }

  function VersionKey(f: Function): string { f.name + ":" + f.version }

  function KeyOf(kind: ListKind): Function -> string {
    if kind.Functions? then NameKey else VersionKey
  }

  function Conflict(f: Function, existing: Function, key: string): ProxyError {
    ConflictingFunctions(key, RegistryOf(f), RegistryOf(existing))
  }

  function TryInsertFunction(cfg: Config, m: map<string, Function>, f: Function): Result<map<string, Function>, ProxyError> {
    if f.name !in m then Ok(m[f.name := f])
    else
      match cfg.parse(f.version)
      case None => Err(VersionParseError(f.version))
      case Some(version) =>
        match cfg.parse(m[f.name].version)
        case None => Ok(m)
        case Some(existing) =>
          if VersionLess(existing, version) then Ok(m[f.name := f])
          else if SameVersion(existing, version) && cfg.conflict.Error? then Err(Conflict(f, m[f.name], f.name))
          else Ok(m)
  }

  function TryInsertKeyed(cfg: Config, key: Function -> string, m: map<string, Function>, f: Function): Result<map<string, Function>, ProxyError> {
    if key(f) !in m then Ok(m[key(f) := f])
    else if cfg.conflict.Error? then Err(Conflict(f, m[key(f)], key(f)))
    else Ok(m)
  }

  type Insert = (map<string, Function>, Function) -> Result<map<string, Function>, ProxyError>

  /** Keeps the first function of every key; in version mode the key is name and version. */
  function InsertFirst(cfg: Config, key: Function -> string): Insert {
    (m, f) => TryInsertKeyed(cfg, key, m, f)
  }

  function InsertNewest(cfg: Config): Insert {
    (m, f) => TryInsertFunction(cfg, m, f)
  }

  function InsertFunction(cfg: Config, kind: ListKind): Insert {
    if kind.Functions? then InsertNewest(cfg) else InsertFirst(cfg, VersionKey)
  }

  /** `try_fold` over the first `n` functions. */
  function TryFold(insert: Insert, fs: seq<Function>, n: nat): Result<map<string, Function>, ProxyError>
    requires n <= |fs|
  {
    if n == 0 then Ok(map[])
    else
      match TryFold(insert, fs, n - 1)
      case Err(e) => Err(e)
      case Ok(m) => insert(m, fs[n - 1])
  }

  /** The fold that puts all sources' functions into one map. */
  function Merge(cfg: Config, kind: ListKind, fs: seq<Function>): Result<map<string, Function>, ProxyError> {
    TryFold(InsertFunction(cfg, kind), fs, |fs|)
  }

  // ---------- what the fold computes ----------

  /** Among the first `n` functions, entry `i` is the one kept for its name: the
      earliest holder of the highest version. An unreadable version that came first stays. */
  ghost predicate WinnerAt(cfg: Config, fs: seq<Function>, n: int, name: string, i: int) {
    && 0 <= i < n <= |fs|
    && fs[i].name == name
    && match cfg.parse(fs[i].version)
       case None => forall j :: 0 <= j < i ==> fs[j].name != name
       case Some(v) =>
         && (forall j :: 0 <= j < n && fs[j].name == name ==>
               cfg.parse(fs[j].version).Some? && !VersionLess(v, cfg.parse(fs[j].version).value))
         && (forall j :: 0 <= j < i && fs[j].name == name ==> VersionLess(cfg.parse(fs[j].version).value, v))
  }

  /** Entry `j` cannot join an entry `i` already kept: its version is unreadable, or it
      repeats the highest version so far and conflicts are errors. */
  ghost predicate Clash(cfg: Config, fs: seq<Function>, i: int, j: int) {
    && 0 <= j < |fs|
    && WinnerAt(cfg, fs, j, fs[j].name, i)
    && (cfg.parse(fs[j].version).None?
        || (cfg.conflict.Error? && cfg.parse(fs[i].version).Some?
            && SameVersion(cfg.parse(fs[i].version).value, cfg.parse(fs[j].version).value)))
  }

  function ClashError(cfg: Config, f: Function, existing: Function): ProxyError {
    if cfg.parse(f.version).None? then VersionParseError(f.version) else Conflict(f, existing, f.name)
  }

  ghost predicate FirstClash(cfg: Config, fs: seq<Function>, i: int, j: int) {
    Clash(cfg, fs, i, j) && forall p, q :: 0 <= q < j ==> !Clash(cfg, fs, p, q)
  }

  ghost predicate IsWinner(cfg: Config, fs: seq<Function>, n: int, name: string, f: Function) {
    exists i :: WinnerAt(cfg, fs, n, name, i) && fs[i] == f
  }

  /** The map holds the winner of every name among the first `n` functions, and nothing else. */
  ghost predicate KeepsWinners(cfg: Config, fs: seq<Function>, n: int, m: map<string, Function>) {
    && 0 <= n <= |fs|
    && (forall k :: 0 <= k < n ==> fs[k].name in m)
    && (forall name :: name in m ==> IsWinner(cfg, fs, n, name, m[name]))
  }

  ghost predicate NoClashBefore(cfg: Config, fs: seq<Function>, n: int) {
    forall i, j :: j < n ==> !Clash(cfg, fs, i, j)
  }

  ghost predicate ReportsFirstClash(cfg: Config, fs: seq<Function>, n: int, e: ProxyError) {
    exists i, j :: j < n && FirstClash(cfg, fs, i, j) && e == ClashError(cfg, fs[j], fs[i])
  }

  lemma WinnerExtends(cfg: Config, fs: seq<Function>, n: int, name: string, i: int)
    requires n < |fs| && WinnerAt(cfg, fs, n, name, i) && fs[n].name != name
    ensures WinnerAt(cfg, fs, n + 1, name, i)
  {
  }

  lemma WinnerUnique(cfg: Config, fs: seq<Function>, n: int, name: string, i: int, j: int)
    requires WinnerAt(cfg, fs, n, name, i) && WinnerAt(cfg, fs, n, name, j)
    ensures i == j
  {
  }

  /** What happens to the winner of a name when one more function of that name arrives. */
  lemma WinnerMeets(cfg: Config, fs: seq<Function>, n: int, i: int)
    requires 0 <= n < |fs| && WinnerAt(cfg, fs, n, fs[n].name, i)
    requires cfg.parse(fs[n].version).Some?
    ensures WinnerAt(cfg, fs, n + 1, fs[n].name,
              if cfg.parse(fs[i].version).Some? && VersionLess(cfg.parse(fs[i].version).value, cfg.parse(fs[n].version).value) then n else i)
  {
    VersionLessWeak();
    var v := cfg.parse(fs[n].version).value;
    if cfg.parse(fs[i].version).Some? {
      var w := cfg.parse(fs[i].version).value;
      forall j | 0 <= j < n && fs[j].name == fs[n].name
        ensures cfg.parse(fs[j].version).Some?
        ensures VersionLess(w, v) ==> VersionLess(cfg.parse(fs[j].version).value, v) && !VersionLess(v, cfg.parse(fs[j].version).value)
      {
        var u := cfg.parse(fs[j].version).value;
        assert !VersionLess(w, u);
        VersionTrichotomy(u, v);
      }
      VersionTrichotomy(w, v);
      VersionTrichotomy(v, v);
    }
  }

  lemma FunctionStep(cfg: Config, fs: seq<Function>, n: int, m: map<string, Function>)
    requires n < |fs| && KeepsWinners(cfg, fs, n, m)
    ensures match TryInsertFunction(cfg, m, fs[n])
            case Ok(m') => (forall i :: !Clash(cfg, fs, i, n)) && KeepsWinners(cfg, fs, n + 1, m')
            case Err(e) => exists i :: Clash(cfg, fs, i, n) && e == ClashError(cfg, fs[n], fs[i])
  {
    var f := fs[n];
    if f.name in m {
      assert IsWinner(cfg, fs, n, f.name, m[f.name]);
      var w :| WinnerAt(cfg, fs, n, f.name, w) && fs[w] == m[f.name];
      OldNameStep(cfg, fs, n, m, w);
    } else {
      NewNameStep(cfg, fs, n, m);
    }
  }

  lemma NewNameStep(cfg: Config, fs: seq<Function>, n: int, m: map<string, Function>)
    requires n < |fs| && KeepsWinners(cfg, fs, n, m) && fs[n].name !in m
    ensures forall i :: !Clash(cfg, fs, i, n)
    ensures KeepsWinners(cfg, fs, n + 1, m[fs[n].name := fs[n]])
  {
    VersionLessWeak();
    assert WinnerAt(cfg, fs, n + 1, fs[n].name, n);
    assert IsWinner(cfg, fs, n + 1, fs[n].name, fs[n]);
    KeepsOthers(cfg, fs, n, m);
  }

  lemma OldNameStep(cfg: Config, fs: seq<Function>, n: int, m: map<string, Function>, w: int)
    requires n < |fs| && KeepsWinners(cfg, fs, n, m)
    requires WinnerAt(cfg, fs, n, fs[n].name, w) && fs[n].name in m && fs[w] == m[fs[n].name]
    ensures match TryInsertFunction(cfg, m, fs[n])
            case Ok(m') => (forall i :: !Clash(cfg, fs, i, n)) && KeepsWinners(cfg, fs, n + 1, m')
            case Err(e) => Clash(cfg, fs, w, n) && e == ClashError(cfg, fs[n], fs[w])
  {
    var f := fs[n];
    if TryInsertFunction(cfg, m, f).Ok? {
      OnlyWinnerClashes(cfg, fs, n, w);
      OldNameKept(cfg, fs, n, m, w);
    } else if cfg.parse(f.version).Some? {
      VersionTrichotomy(cfg.parse(fs[w].version).value, cfg.parse(f.version).value);
    }
  }

  lemma OnlyWinnerClashes(cfg: Config, fs: seq<Function>, n: int, w: int)
    requires 0 <= n < |fs| && WinnerAt(cfg, fs, n, fs[n].name, w)
    ensures forall i :: Clash(cfg, fs, i, n) ==> i == w
  {
    forall i | Clash(cfg, fs, i, n)
      ensures i == w
    {
      WinnerUnique(cfg, fs, n, fs[n].name, i, w);
    }
  }

  /** Replacing the winner of a name by a newer function of that name. */
  lemma WinnerReplaced(cfg: Config, fs: seq<Function>, n: int, m: map<string, Function>, f: Function, i: int)
    requires 0 <= n < |fs| && KeepsWinners(cfg, fs, n, m)
    requires WinnerAt(cfg, fs, n + 1, fs[n].name, i) && fs[i] == f
    ensures KeepsWinners(cfg, fs, n + 1, m[fs[n].name := f])
  {
    KeepsOthers(cfg, fs, n, m);
    assert IsWinner(cfg, fs, n + 1, fs[n].name, f);
  }

  lemma OldNameKept(cfg: Config, fs: seq<Function>, n: int, m: map<string, Function>, w: int)
    requires n < |fs| && KeepsWinners(cfg, fs, n, m)
    requires WinnerAt(cfg, fs, n, fs[n].name, w) && fs[n].name in m && fs[w] == m[fs[n].name]
    requires TryInsertFunction(cfg, m, fs[n]).Ok?
    ensures !Clash(cfg, fs, w, n)
    ensures KeepsWinners(cfg, fs, n + 1, TryInsertFunction(cfg, m, fs[n]).value)
  {
    var f := fs[n];
    WinnerMeets(cfg, fs, n, w);
    if cfg.parse(fs[w].version).Some? && VersionLess(cfg.parse(fs[w].version).value, cfg.parse(f.version).value) {
      VersionTrichotomy(cfg.parse(fs[w].version).value, cfg.parse(f.version).value);
      WinnerReplaced(cfg, fs, n, m, f, n);
    } else {
      WinnerReplaced(cfg, fs, n, m, fs[w], w);
      assert m[f.name := fs[w]] == m;
    }
  }

  lemma KeepsOthers(cfg: Config, fs: seq<Function>, n: int, m: map<string, Function>)
    requires n < |fs| && KeepsWinners(cfg, fs, n, m)
    ensures forall name :: name in m && name != fs[n].name ==> IsWinner(cfg, fs, n + 1, name, m[name])
  {
    forall name | name in m && name != fs[n].name
      ensures IsWinner(cfg, fs, n + 1, name, m[name])
    {
      assert IsWinner(cfg, fs, n, name, m[name]);
      var i :| WinnerAt(cfg, fs, n, name, i) && fs[i] == m[name];
      WinnerExtends(cfg, fs, n, name, i);
    }
  }

  /** What a fold over the first `n` functions must have produced. */
  ghost predicate FoldOutcome(cfg: Config, fs: seq<Function>, n: int, r: Result<map<string, Function>, ProxyError>) {
    match r
    case Ok(m) => NoClashBefore(cfg, fs, n) && KeepsWinners(cfg, fs, n, m)
    case Err(e) => ReportsFirstClash(cfg, fs, n, e)
  }

  lemma FoldContinues(cfg: Config, fs: seq<Function>, n: nat, m: map<string, Function>)
    requires n < |fs| && FoldOutcome(cfg, fs, n, Ok(m))
    ensures FoldOutcome(cfg, fs, n + 1, TryInsertFunction(cfg, m, fs[n]))
  {
    FunctionStep(cfg, fs, n, m);
    if TryInsertFunction(cfg, m, fs[n]).Err? {
      var i :| Clash(cfg, fs, i, n) && TryInsertFunction(cfg, m, fs[n]).error == ClashError(cfg, fs[n], fs[i]);
      assert FirstClash(cfg, fs, i, n);
    }
  }

  lemma FoldStops(cfg: Config, fs: seq<Function>, n: nat, e: ProxyError)
    requires FoldOutcome(cfg, fs, n, Err(e))
    ensures FoldOutcome(cfg, fs, n + 1, Err(e))
  {
    var i, j :| j < n && FirstClash(cfg, fs, i, j) && e == ClashError(cfg, fs[j], fs[i]);
    assert j < n + 1;
  }

  lemma {:induction false} FunctionMergeUpTo(cfg: Config, fs: seq<Function>, n: nat)
    requires n <= |fs|
    ensures FoldOutcome(cfg, fs, n, TryFold(InsertNewest(cfg), fs, n))
  {
    if n > 0 {
      FunctionMergeUpTo(cfg, fs, n - 1);
      match TryFold(InsertNewest(cfg), fs, n - 1)
      case Ok(m) => FoldContinues(cfg, fs, n - 1, m);
      case Err(e) => FoldStops(cfg, fs, n - 1, e);
    }
  }

  /** The function-mode fold succeeds exactly when nothing clashes, then keeps the winner of
      every name, and otherwise reports the first clash. */
  lemma FunctionMergeCharacterized(cfg: Config, fs: seq<Function>)
    ensures Merge(cfg, Functions, fs).Ok? <==> forall i, j :: !Clash(cfg, fs, i, j)
    ensures match Merge(cfg, Functions, fs)
            case Ok(m) => KeepsWinners(cfg, fs, |fs|, m)
            case Err(e) => ReportsFirstClash(cfg, fs, |fs|, e)
  {
    FunctionMergeUpTo(cfg, fs, |fs|);
  }

  /** Entry `i` is the first with its key. */
  ghost predicate FirstOfKey(key: Function -> string, fs: seq<Function>, k: string, i: int) {
    && 0 <= i < |fs|
    && key(fs[i]) == k
    && forall j :: 0 <= j < i ==> key(fs[j]) != k
  }

  ghost predicate IsFirst(key: Function -> string, fs: seq<Function>, n: int, k: string, f: Function) {
    exists i :: i < n && FirstOfKey(key, fs, k, i) && fs[i] == f
  }

  ghost predicate KeyRepeats(key: Function -> string, fs: seq<Function>, n: int) {
    exists i, j :: 0 <= i < j < n <= |fs| && key(fs[i]) == key(fs[j])
  }

  /** Entry `j` is the first whose key has occurred before, at `i`. */
  ghost predicate FirstRepeat(key: Function -> string, fs: seq<Function>, i: int, j: int) {
    0 <= i < j < |fs| && key(fs[i]) == key(fs[j]) && !KeyRepeats(key, fs, j)
  }

  ghost predicate ReportsFirstRepeat(key: Function -> string, fs: seq<Function>, n: int, e: ProxyError) {
    exists i, j :: j < n && FirstRepeat(key, fs, i, j) && e == Conflict(fs[j], fs[i], key(fs[j]))
  }

  ghost predicate KeepsFirst(key: Function -> string, fs: seq<Function>, n: int, m: map<string, Function>) {
    && 0 <= n <= |fs|
    && (forall k :: 0 <= k < n ==> key(fs[k]) in m)
    && (forall k :: k in m ==> IsFirst(key, fs, n, k, m[k]))
  }

  lemma FirstExtends(key: Function -> string, fs: seq<Function>, n: int, m: map<string, Function>)
    requires n < |fs| && KeepsFirst(key, fs, n, m)
    ensures forall k :: k in m ==> IsFirst(key, fs, n + 1, k, m[k])
  {
    forall k | k in m
      ensures IsFirst(key, fs, n + 1, k, m[k])
    {
      assert IsFirst(key, fs, n, k, m[k]);
    }
  }

  lemma NewKeyKept(key: Function -> string, fs: seq<Function>, n: int, m: map<string, Function>)
    requires n < |fs| && KeepsFirst(key, fs, n, m) && key(fs[n]) !in m
    ensures KeepsFirst(key, fs, n + 1, m[key(fs[n]) := fs[n]])
    ensures KeyRepeats(key, fs, n + 1) ==> KeyRepeats(key, fs, n)
  {
    FirstExtends(key, fs, n, m);
    assert FirstOfKey(key, fs, key(fs[n]), n);
    assert IsFirst(key, fs, n + 1, key(fs[n]), fs[n]);
  }

  lemma OldKeyKept(key: Function -> string, fs: seq<Function>, n: int, m: map<string, Function>)
    requires n < |fs| && KeepsFirst(key, fs, n, m) && key(fs[n]) in m
    ensures KeepsFirst(key, fs, n + 1, m)
    ensures KeyRepeats(key, fs, n + 1)
  {
    FirstExtends(key, fs, n, m);
    assert IsFirst(key, fs, n, key(fs[n]), m[key(fs[n])]);
    var i :| i < n && FirstOfKey(key, fs, key(fs[n]), i) && fs[i] == m[key(fs[n])];
    assert key(fs[i]) == key(fs[n]);
  }

  lemma RepeatReported(key: Function -> string, fs: seq<Function>, n: int, m: map<string, Function>)
    requires n < |fs| && KeepsFirst(key, fs, n, m) && key(fs[n]) in m && !KeyRepeats(key, fs, n)
    ensures ReportsFirstRepeat(key, fs, n + 1, Conflict(fs[n], m[key(fs[n])], key(fs[n])))
  {
    assert IsFirst(key, fs, n, key(fs[n]), m[key(fs[n])]);
    var i :| i < n && FirstOfKey(key, fs, key(fs[n]), i) && fs[i] == m[key(fs[n])];
    assert FirstRepeat(key, fs, i, n);
  }

  lemma RepeatsMonotone(key: Function -> string, fs: seq<Function>, n: nat)
    requires n < |fs|
    ensures KeyRepeats(key, fs, n) ==> KeyRepeats(key, fs, n + 1)
  {
  }

  /** What a fold over the first `n` functions must have produced. */
  ghost predicate KeyedOutcome(cfg: Config, key: Function -> string, fs: seq<Function>, n: int,
                               r: Result<map<string, Function>, ProxyError>) {
    match r
    case Ok(m) => KeepsFirst(key, fs, n, m) && (cfg.conflict.Error? ==> !KeyRepeats(key, fs, n))
    case Err(e) => cfg.conflict.Error? && KeyRepeats(key, fs, n) && ReportsFirstRepeat(key, fs, n, e)
  }

  lemma KeyedContinues(cfg: Config, key: Function -> string, fs: seq<Function>, n: int, m: map<string, Function>)
    requires n < |fs| && KeyedOutcome(cfg, key, fs, n, Ok(m))
    ensures KeyedOutcome(cfg, key, fs, n + 1, TryInsertKeyed(cfg, key, m, fs[n]))
  {
    if key(fs[n]) in m {
      OldKeyKept(key, fs, n, m);
      if cfg.conflict.Error? {
        RepeatReported(key, fs, n, m);
      }
    } else {
      NewKeyKept(key, fs, n, m);
    }
  }

  lemma {:induction false} KeyedMergeUpTo(cfg: Config, key: Function -> string, fs: seq<Function>, n: nat)
    requires n <= |fs|
    ensures KeyedOutcome(cfg, key, fs, n, TryFold(InsertFirst(cfg, key), fs, n))
  {
    if n > 0 {
      KeyedMergeUpTo(cfg, key, fs, n - 1);
      match TryFold(InsertFirst(cfg, key), fs, n - 1)
      case Ok(m) => KeyedContinues(cfg, key, fs, n - 1, m);
      case Err(e) =>
        RepeatsMonotone(key, fs, n - 1);
        var i, j :| j < n - 1 && FirstRepeat(key, fs, i, j) && e == Conflict(fs[j], fs[i], key(fs[j]));
        assert j < n && FirstRepeat(key, fs, i, j);
    }
  }

  /** The version-mode fold keeps the earliest source's entry for every name and version,
      and fails exactly when conflicts are errors and some key repeats, reporting the first that does. */
  lemma VersionMergeCharacterized(cfg: Config, fs: seq<Function>)
    ensures Merge(cfg, Versions, fs).Err? <==> cfg.conflict.Error? && KeyRepeats(VersionKey, fs, |fs|)
    ensures Merge(cfg, Versions, fs).Ok? ==> KeepsFirst(VersionKey, fs, |fs|, Merge(cfg, Versions, fs).value)
    ensures Merge(cfg, Versions, fs).Err? ==> ReportsFirstRepeat(VersionKey, fs, |fs|, Merge(cfg, Versions, fs).error)
  {
    KeyedMergeUpTo(cfg, VersionKey, fs, |fs|);
  }
}

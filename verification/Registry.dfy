/** Avery's internal registry: a locked vector of functions and a locked map of attachments.

Parsing and printing of versions, requirements and UUIDs, hashing, fresh UUIDs, the
clock and the outcome of file system calls come from outside and are parameters.
*/
module Registry {
  import opened Listing
  import opened Names
  import opened Results
  import opened Semver
  import opened Catalog

  type Uuid = nat

  type Requirement = Version -> bool

  datatype Env = Env(
    parseVersion: string -> Option<Version>, showVersion: Version -> string,
    parseRequirement: string -> Option<Requirement>,
    parseUuid: string -> Option<Uuid>, showUuid: Uuid -> string,
    digest: string -> string, suffix: string)

  datatype Attachment = Attachment(name: string, sha256: string, publisher: Publisher, createdAt: nat, body: nat)

  datatype Resolved = Resolved(function_: Function, code: Option<Attachment>, attachments: seq<Attachment>)

  datatype Status =
    | BadName(error: NameError) | BadVersion | BadRequirement | RuntimeRequired
    | AttachmentsNotFound(ids: seq<string>) | BadUuid | AttachmentNotFound | FunctionNotFound
    | PublisherRequired | PublisherNameRequired | PublisherEmailRequired
    | AttachmentNameRequired | ChecksumRequired | FileNotCreated | PathNotUrl

  datatype FunctionData = FunctionData(
    name: string, version: string, metadata: map<string, string>, hasRuntime: bool, publisher: Option<Publisher>,
    code: Option<string>, attachments: seq<string>, body: nat)

  datatype AttachmentData = AttachmentData(name: string, sha256: Option<string>, publisher: Option<Publisher>, body: nat)

  // ---------- looking things up ----------

  function GetAttachment(env: Env, attachments: map<Uuid, Attachment>, id: string): Result<Attachment, Status> {
    match env.parseUuid(id)
    case None => Err(BadUuid)
    case Some(uuid) => if uuid in attachments then Ok(attachments[uuid]) else Err(AttachmentNotFound)
  }

  predicate Exists(env: Env, attachments: map<Uuid, Attachment>, id: string) {
    GetAttachment(env, attachments, id).Ok?
  }

  /** The first failure, or all attachments. */
  function GetAttachments(env: Env, attachments: map<Uuid, Attachment>, ids: seq<string>): (r: Result<seq<Attachment>, Status>)
    ensures r.Ok? <==> forall id :: id in ids ==> Exists(env, attachments, id)
    ensures r.Ok? ==> |r.value| == |ids| && forall i :: 0 <= i < |ids| ==> GetAttachment(env, attachments, ids[i]) == Ok(r.value[i])
  {
    if ids == [] then Ok([])
    else
      assert ids[0] in ids && forall id :: id in ids ==> id == ids[0] || id in ids[1..];
      match GetAttachment(env, attachments, ids[0])
      case Err(e) => Err(e)
      case Ok(a) =>
        match GetAttachments(env, attachments, ids[1..])
        case Err(e) => Err(e)
        case Ok(rest) => Ok([a] + rest)
  }

  function CodeIds(code: Option<string>): seq<string> {
    match code
    case None => []
    case Some(id) => [id]
  }

  /** `get_function`: the code first, then the attachments. */
  function Resolve(env: Env, attachments: map<Uuid, Attachment>, f: Function): Result<Resolved, Status> {
    match GetAttachments(env, attachments, CodeIds(f.code))
    case Err(e) => Err(e)
    case Ok(code) =>
      match GetAttachments(env, attachments, f.attachments)
      case Err(e) => Err(e)
      case Ok(all) => Ok(Resolved(f, if code == [] then None else Some(code[0]), all))
  }

  predicate IdStored(env: Env, attachments: map<Uuid, Attachment>, id: string) {
    env.parseUuid(id).Some? && env.parseUuid(id).value in attachments
  }

  /** The answer shows the function with exactly the attachments it names, in its order. */
  ghost predicate Complete(env: Env, attachments: map<Uuid, Attachment>, r: Resolved) {
    && (r.code.Some? <==> r.function_.code.Some?)
    && (r.code.Some? ==> IdStored(env, attachments, r.function_.code.value)
                         && r.code.value == attachments[env.parseUuid(r.function_.code.value).value])
    && |r.attachments| == |r.function_.attachments|
    && forall i :: 0 <= i < |r.attachments| ==>
         IdStored(env, attachments, r.function_.attachments[i])
         && r.attachments[i] == attachments[env.parseUuid(r.function_.attachments[i]).value]
  }

  lemma ResolveCompletes(env: Env, attachments: map<Uuid, Attachment>, f: Function)
    requires Resolve(env, attachments, f).Ok?
    ensures Resolve(env, attachments, f).value.function_ == f && Complete(env, attachments, Resolve(env, attachments, f).value)
  {
    var r := Resolve(env, attachments, f).value;
    forall i | 0 <= i < |f.attachments|
      ensures GetAttachment(env, attachments, f.attachments[i]) == Ok(r.attachments[i])
    {
    }
    if f.code.Some? {
      assert CodeIds(f.code)[0] == f.code.value;
      assert GetAttachment(env, attachments, f.code.value) == Ok(r.code.value);
    }
  }

  /** Everything a function refers to is stored. */
  ghost predicate References(env: Env, attachments: map<Uuid, Attachment>, f: Function) {
    forall id :: id in f.attachments + CodeIds(f.code) ==> Exists(env, attachments, id)
  }

  lemma ReferencesResolve(env: Env, attachments: map<Uuid, Attachment>, f: Function)
    ensures References(env, attachments, f) <==> Resolve(env, attachments, f).Ok?
  {
    assert forall id :: id in f.attachments + CodeIds(f.code) <==> id in f.attachments || id in CodeIds(f.code);
  }

  /** `filter_map(|f| self.get_function(f).ok())`. */
  function ResolveAll(env: Env, attachments: map<Uuid, Attachment>, fs: seq<Function>): seq<Resolved> {
    if fs == [] then []
    else
      match Resolve(env, attachments, fs[0])
      case Ok(r) => [r] + ResolveAll(env, attachments, fs[1..])
      case Err(_) => ResolveAll(env, attachments, fs[1..])
  }

  /** Nothing is dropped from a listing of functions whose references exist. */
  lemma {:induction false} ResolveAllDropsNothing(env: Env, attachments: map<Uuid, Attachment>, fs: seq<Function>)
    requires forall f :: f in fs ==> References(env, attachments, f)
    ensures var r := ResolveAll(env, attachments, fs);
            |r| == |fs| && forall i :: 0 <= i < |fs| ==> r[i].function_ == fs[i] && Complete(env, attachments, r[i])
  {
    if fs != [] {
      assert fs[0] in fs;
      ReferencesResolve(env, attachments, fs[0]);
      ResolveCompletes(env, attachments, fs[0]);
      ResolveAllDropsNothing(env, attachments, fs[1..]);
    }
  }

  // ---------- registering ----------

  function MissingIds(env: Env, attachments: map<Uuid, Attachment>, ids: seq<string>): (r: seq<string>)
    ensures r == [] <==> forall id :: id in ids ==> Exists(env, attachments, id)
  {
    if ids == [] then []
    else
      (if Exists(env, attachments, ids[0]) then [] else [ids[0]]) + MissingIds(env, attachments, ids[1..])
  }

  function Checksums(env: Env, attachments: map<Uuid, Attachment>, ids: seq<string>): string
    requires forall id :: id in ids ==> Exists(env, attachments, id)
  {
    if ids == [] then ""
    else
      assert Exists(env, attachments, ids[0]);
      GetAttachment(env, attachments, ids[0]).value.sha256 + Checksums(env, attachments, ids[1..])
  }

  function CheckPublisher(publisher: Option<Publisher>): Result<Publisher, Status> {
    match publisher
    case None => Err(PublisherRequired)
    case Some(p) =>
      if p.name == "" then Err(PublisherNameRequired)
      else if p.email == "" then Err(PublisherEmailRequired)
      else Ok(p)
  }

  /** The version under which data is stored: the local suffix makes it a prerelease. */
  function StoredVersion(env: Env, version: string): Option<Version> {
    if version == "" then None
    else
      match env.parseVersion(version)
      case None => None
      case Some(v) => Some(if env.suffix == "" then v else v.(pre := v.pre + [AlphaNumeric(env.suffix)]))
  }

  /** The checks made before the write lock is taken; their failure changes nothing. */
  function EarlyCheck(env: Env, data: FunctionData): Result<Version, Status> {
    match ValidateByBytes(data.name)
    case Err(e) => Err(BadName(e))
    case Ok(_) =>
      match StoredVersion(env, data.version)
      case None => Err(BadVersion)
      case Some(v) => Ok(v)
  }

  /** The checks made after an older function with the same key has been removed. */
  function LateCheck(env: Env, attachments: map<Uuid, Attachment>, data: FunctionData, version: Version, now: nat): Result<Function, Status> {
    var ids := data.attachments + CodeIds(data.code);
    if !data.hasRuntime then Err(RuntimeRequired)
    else if MissingIds(env, attachments, ids) != [] then Err(AttachmentsNotFound(MissingIds(env, attachments, ids)))
    else
      var checksum := env.digest(Checksums(env, attachments, ids));
      match CheckPublisher(data.publisher)
      case Err(e) => Err(e)
      case Ok(publisher) =>
        Ok(Function(data.name, version, data.metadata["_dev-checksum" := checksum], publisher,
                    data.code, data.attachments, now, data.body))
  }

  /** `retain`: drop functions with this name and version. */
  function Without(fs: seq<Function>, name: string, version: Version): (r: seq<Function>)
    ensures forall f :: f in r <==> f in fs && !(f.name == name && SameVersion(f.version, version))
  {
    if fs == [] then []
    else if fs[0].name == name && SameVersion(fs[0].version, version) then Without(fs[1..], name, version)
    else [fs[0]] + Without(fs[1..], name, version)
  }

  /** No two stored functions share name and version. */
  ghost predicate DistinctKeys(fs: seq<Function>) {
    forall i, j :: 0 <= i < j < |fs| ==> KeyOf(fs[i]) != KeyOf(fs[j])
  }

  lemma {:induction false} WithoutKeepsDistinct(fs: seq<Function>, name: string, version: Version)
    requires DistinctKeys(fs)
    ensures DistinctKeys(Without(fs, name, version))
  {
    if fs != [] {
      WithoutKeepsDistinct(fs[1..], name, version);
      var rest := Without(fs[1..], name, version);
      forall f | f in rest
        ensures KeyOf(f) != KeyOf(fs[0])
      {
        assert f in fs[1..];
        var i :| 1 <= i < |fs| && fs[i] == f;
      }
    }
  }

  lemma DistinctKeysAreUnique(fs: seq<Function>)
    requires DistinctKeys(fs)
    ensures NoDup(fs) && UniqueKeys(Elements(fs))
  {
    forall i, j | 0 <= i < j < |fs|
      ensures fs[i] != fs[j]
    {
      assert KeyOf(fs[i]) != KeyOf(fs[j]);
    }
  }

  /** The registry seen as a map from name and version to function. */
  function Abs(fs: seq<Function>): (m: map<(string, Version), Function>)
    ensures forall f :: f in fs ==> KeyOf(f) in m
    ensures forall k :: k in m ==> m[k] in fs && KeyOf(m[k]) == k
  {
    if fs == [] then map[]
    else Abs(fs[1..])[KeyOf(fs[0]) := fs[0]]
  }

  lemma AbsAt(fs: seq<Function>, f: Function)
    requires DistinctKeys(fs) && f in fs
    ensures Abs(fs)[KeyOf(f)] == f
  {
    DistinctKeysAreUnique(fs);
    var g := Abs(fs)[KeyOf(f)];
    assert g in Elements(fs) && f in Elements(fs);
  }

  /** The map is the vector's content: same functions, same map. */
  lemma AbsByElements(fs: seq<Function>, gs: seq<Function>)
    requires DistinctKeys(fs) && DistinctKeys(gs)
    ensures Abs(fs) == Abs(gs) <==> Elements(fs) == Elements(gs)
  {
    if Elements(fs) == Elements(gs) {
      forall k
        ensures k in Abs(fs) <==> k in Abs(gs)
        ensures k in Abs(fs) && k in Abs(gs) ==> Abs(fs)[k] == Abs(gs)[k]
      {
        if k in Abs(fs) {
          assert Abs(fs)[k] in Elements(gs);
          AbsAt(gs, Abs(fs)[k]);
        }
        if k in Abs(gs) {
          assert Abs(gs)[k] in Elements(fs);
          AbsAt(fs, Abs(gs)[k]);
        }
      }
    }
    if Abs(fs) == Abs(gs) {
      forall f
        ensures f in Elements(fs) <==> f in Elements(gs)
      {
        if f in fs {
          AbsAt(fs, f);
        }
        if f in gs {
          AbsAt(gs, f);
        }
      }
    }
  }

  datatype State = State(functions: seq<Function>, attachments: map<Uuid, Attachment>, files: set<string>)

  /** What every run keeps. */
  ghost predicate Inv(env: Env, s: State) {
    && DistinctKeys(s.functions)
    && forall f :: f in s.functions ==> References(env, s.attachments, f)
  }

  function RegisterStep(env: Env, s: State, data: FunctionData, now: nat): (State, Result<Resolved, Status>) {
    match EarlyCheck(env, data)
    case Err(e) => (s, Err(e))
    case Ok(version) =>
      var retained := Without(s.functions, data.name, version);
      match LateCheck(env, s.attachments, data, version, now)
      case Err(e) => (s.(functions := retained), Err(e))
      case Ok(f) => (s.(functions := retained + [f]), Resolve(env, s.attachments, f))
  }

  function AttachStep(env: Env, s: State, data: AttachmentData, id: Uuid, now: nat, pathOk: bool): (State, Result<Uuid, Status>) {
    if data.name == "" then (s, Err(AttachmentNameRequired))
    else if data.sha256.None? then (s, Err(ChecksumRequired))
    else
      match CheckPublisher(data.publisher)
      case Err(e) => (s, Err(e))
      case Ok(publisher) =>
        if env.showUuid(id) in s.files then (s, Err(FileNotCreated))
        else
          var s' := s.(files := s.files + {env.showUuid(id)});
          if !pathOk then (s', Err(PathNotUrl))
          else
            (s'.(attachments := s.attachments[id := Attachment(data.name, data.sha256.value, publisher, now, data.body)]),
             Ok(id))
  }

  /** Registering, on the map: an early failure changes nothing, a late failure removes the key,
      success sets it. */
  function MapRegister(env: Env, attachments: map<Uuid, Attachment>, m: map<(string, Version), Function>,
                       data: FunctionData, now: nat): map<(string, Version), Function> {
    match EarlyCheck(env, data)
    case Err(_) => m
    case Ok(version) =>
      var key := (data.name, Release(version));
      match LateCheck(env, attachments, data, version, now)
      case Err(_) => m - {key}
      case Ok(f) => m[key := f]
  }

  /** Registering on the vector refines registering on the map, keeps the invariant, and answers with
      the function stored or the first check that failed. */
  lemma RegisterRefinesMap(env: Env, s: State, data: FunctionData, now: nat)
    requires Inv(env, s)
    ensures var (s', r) := RegisterStep(env, s, data, now);
            && Inv(env, s')
            && s'.attachments == s.attachments
            && Abs(s'.functions) == MapRegister(env, s.attachments, Abs(s.functions), data, now)
            && match EarlyCheck(env, data)
               case Err(e) => r == Err(e)
               case Ok(version) =>
                 match LateCheck(env, s.attachments, data, version, now)
                 case Err(e) => r == Err(e)
                 case Ok(f) => r.Ok? && r.value.function_ == f
  {
    if EarlyCheck(env, data).Ok? {
      var version := EarlyCheck(env, data).value;
      LateOutcome(env, s, data, version, now);
    }
  }

  lemma LateOutcome(env: Env, s: State, data: FunctionData, version: Version, now: nat)
    requires Inv(env, s)
    ensures var retained := Without(s.functions, data.name, version);
            var key := (data.name, Release(version));
            && Inv(env, s.(functions := retained)) && Abs(retained) == Abs(s.functions) - {key}
            && match LateCheck(env, s.attachments, data, version, now)
               case Err(_) => true
               case Ok(f) =>
                 && Inv(env, s.(functions := retained + [f])) && Abs(retained + [f]) == Abs(s.functions)[key := f]
                 && Resolve(env, s.attachments, f).Ok?
  {
    var retained := Without(s.functions, data.name, version);
    InvWithout(env, s, data.name, version);
    AbsWithout(s.functions, data.name, version);
    var late := LateCheck(env, s.attachments, data, version, now);
    if late.Ok? {
      var f := late.value;
      LateCheckRefers(env, s.attachments, data, version, now);
      ReferencesResolve(env, s.attachments, f);
      InvAppend(env, s.(functions := retained), f);
      AbsAppend(retained, f);
      MapReset(Abs(s.functions), KeyOf(f), f);
    }
  }

  lemma MapReset<K, V>(m: map<K, V>, k: K, v: V)
    ensures (m - {k})[k := v] == m[k := v]
  {
  }

  lemma InvWithout(env: Env, s: State, name: string, version: Version)
    requires Inv(env, s)
    ensures Inv(env, s.(functions := Without(s.functions, name, version)))
  {
    WithoutKeepsDistinct(s.functions, name, version);
  }

  lemma InvAppend(env: Env, s: State, f: Function)
    requires Inv(env, s) && References(env, s.attachments, f) && KeyOf(f) !in Abs(s.functions)
    ensures Inv(env, s.(functions := s.functions + [f]))
  {
    AppendKeepsDistinct(s.functions, f);
  }

  lemma LateCheckRefers(env: Env, attachments: map<Uuid, Attachment>, data: FunctionData, version: Version, now: nat)
    ensures LateCheck(env, attachments, data, version, now).Ok? ==>
              var f := LateCheck(env, attachments, data, version, now).value;
              References(env, attachments, f) && KeyOf(f) == (data.name, Release(version))
  {
  }

  /** The map is the only one that holds exactly the stored functions, each under its key. */
  lemma AbsIs(fs: seq<Function>, m: map<(string, Version), Function>)
    requires DistinctKeys(fs)
    requires forall f :: f in fs ==> KeyOf(f) in m && m[KeyOf(f)] == f
    requires forall k :: k in m ==> m[k] in fs && KeyOf(m[k]) == k
    ensures Abs(fs) == m
  {
    forall k | k in Abs(fs)
      ensures k in m && m[k] == Abs(fs)[k]
    {
      assert Abs(fs)[k] in fs;
    }
    forall k | k in m
      ensures k in Abs(fs)
    {
      assert m[k] in fs;
    }
  }

  lemma AbsWithout(fs: seq<Function>, name: string, version: Version)
    requires DistinctKeys(fs)
    ensures Abs(Without(fs, name, version)) == Abs(fs) - {(name, Release(version))}
  {
    WithoutKeepsDistinct(fs, name, version);
    forall f | f in fs
      ensures Abs(fs)[KeyOf(f)] == f
    {
      AbsAt(fs, f);
    }
    AbsIs(Without(fs, name, version), Abs(fs) - {(name, Release(version))});
  }

  lemma AppendKeepsDistinct(fs: seq<Function>, f: Function)
    requires DistinctKeys(fs) && KeyOf(f) !in Abs(fs)
    ensures DistinctKeys(fs + [f])
  {
    forall i | 0 <= i < |fs|
      ensures KeyOf(fs[i]) != KeyOf(f)
    {
      assert fs[i] in fs;
    }
  }

  lemma AbsAppend(fs: seq<Function>, f: Function)
    requires DistinctKeys(fs) && KeyOf(f) !in Abs(fs)
    ensures DistinctKeys(fs + [f])
    ensures Abs(fs + [f]) == Abs(fs)[KeyOf(f) := f]
  {
    AppendKeepsDistinct(fs, f);
    var m := Abs(fs)[KeyOf(f) := f];
    forall g | g in fs + [f]
      ensures KeyOf(g) in m && m[KeyOf(g)] == g
    {
      if g in fs {
        AbsAt(fs, g);
      }
    }
    AbsIs(fs + [f], m);
  }

  /** Attachments are only ever added, so references stay valid. */
  lemma AttachKeepsInv(env: Env, s: State, data: AttachmentData, id: Uuid, now: nat, pathOk: bool)
    requires Inv(env, s)
    ensures var (s', r) := AttachStep(env, s, data, id, now, pathOk);
            && Inv(env, s')
            && s'.functions == s.functions
            && s.attachments.Keys <= s'.attachments.Keys && s.files <= s'.files
            && (r.Ok? ==> r.value in s'.attachments)
  {
    var s' := AttachStep(env, s, data, id, now, pathOk).0;
    forall f | f in s'.functions
      ensures References(env, s'.attachments, f)
    {
      assert References(env, s.attachments, f);
      assert forall i :: Exists(env, s.attachments, i) ==> Exists(env, s'.attachments, i);
    }
  }

  // ---------- what registering amounts to ----------

  /** The version a request is stored under: the local suffix is the last field of its prerelease. */
  ghost predicate VersionFor(env: Env, text: string, v: Version) {
    && text != "" && env.parseVersion(text).Some?
    && var parsed := env.parseVersion(text).value;
    && v.major == parsed.major && v.minor == parsed.minor && v.patch == parsed.patch && v.build == parsed.build
    && v.pre == parsed.pre + if env.suffix == "" then [] else [AlphaNumeric(env.suffix)]
  }

  predicate NameAccepted(name: string) {
    ByteLength(name) <= 128 && 3 <= ByteLength(name) && Matches(NAME, name)
  }

  predicate VersionAccepted(env: Env, version: string) {
    version != "" && env.parseVersion(version).Some?
  }

  /** The checks that come before anything is changed. */
  predicate EarlyAccepted(env: Env, data: FunctionData) {
    NameAccepted(data.name) && VersionAccepted(env, data.version)
  }

  function Ids(data: FunctionData): seq<string> {
    data.attachments + match data.code case None => [] case Some(id) => [id]
  }

  ghost predicate PublisherAccepted(publisher: Option<Publisher>) {
    publisher.Some? && publisher.value.name != "" && publisher.value.email != ""
  }

  /** Exactly then a request succeeds. */
  ghost predicate Accepted(env: Env, attachments: map<Uuid, Attachment>, data: FunctionData) {
    && EarlyAccepted(env, data) && data.hasRuntime
    && (forall id :: id in Ids(data) ==> IdStored(env, attachments, id))
    && PublisherAccepted(data.publisher)
  }

  function ChecksumOf(env: Env, attachments: map<Uuid, Attachment>, id: string): string {
    if IdStored(env, attachments, id) then attachments[env.parseUuid(id).value].sha256 else ""
  }

  /** The checksums of the attachments one after the other. */
  function JoinedChecksums(env: Env, attachments: map<Uuid, Attachment>, ids: seq<string>): string {
    Flatten(seq(|ids|, i requires 0 <= i < |ids| => ChecksumOf(env, attachments, ids[i])))
  }

  /** What is stored for a request: all it asks for, and a checksum of what it refers to in its metadata. */
  ghost predicate StoredFor(env: Env, attachments: map<Uuid, Attachment>, data: FunctionData, now: nat, f: Function)
    requires Accepted(env, attachments, data)
  {
    && f.name == data.name && VersionFor(env, data.version, f.version)
    && f.publisher == data.publisher.value && f.code == data.code && f.attachments == data.attachments
    && f.createdAt == now && f.body == data.body
    && "_dev-checksum" in f.metadata && f.metadata["_dev-checksum"] == env.digest(JoinedChecksums(env, attachments, Ids(data)))
    && forall k :: k != "_dev-checksum" ==>
         (k in f.metadata <==> k in data.metadata) && (k in data.metadata ==> f.metadata[k] == data.metadata[k])
  }

  /** The first thing wrong with a request, in the order in which things are checked. */
  ghost predicate RejectedFor(env: Env, attachments: map<Uuid, Attachment>, data: FunctionData, e: Status) {
    if ByteLength(data.name) > 128 then e == BadName(TooLong)
    else if ByteLength(data.name) < 3 then e == BadName(TooShort)
    else if !Matches(NAME, data.name) then e == BadName(InvalidCharacters)
    else if !VersionAccepted(env, data.version) then e == BadVersion
    else if !data.hasRuntime then e == RuntimeRequired
    else if exists id :: id in Ids(data) && !IdStored(env, attachments, id) then
      e.AttachmentsNotFound? && MissingAre(env, attachments, Ids(data), e.ids)
    else if data.publisher.None? then e == PublisherRequired
    else if data.publisher.value.name == "" then e == PublisherNameRequired
    else data.publisher.value.email == "" && e == PublisherEmailRequired
  }

  /** `missing` are the ids that are not stored, in their order. */
  ghost predicate MissingAre(env: Env, attachments: map<Uuid, Attachment>, ids: seq<string>, missing: seq<string>) {
    if ids == [] then missing == []
    else if IdStored(env, attachments, ids[0]) then MissingAre(env, attachments, ids[1..], missing)
    else missing != [] && missing[0] == ids[0] && MissingAre(env, attachments, ids[1..], missing[1..])
  }

  lemma {:induction false} MissingIdsAre(env: Env, attachments: map<Uuid, Attachment>, ids: seq<string>)
    ensures MissingAre(env, attachments, ids, MissingIds(env, attachments, ids))
  {
    if ids != [] {
      MissingIdsAre(env, attachments, ids[1..]);
      var rest := MissingIds(env, attachments, ids[1..]);
      if IdStored(env, attachments, ids[0]) {
        assert MissingIds(env, attachments, ids) == [] + rest == rest;
      } else {
        assert MissingIds(env, attachments, ids) == [ids[0]] + rest;
      }
    }
  }

  lemma {:induction false} ChecksumsJoined(env: Env, attachments: map<Uuid, Attachment>, ids: seq<string>)
    requires forall id :: id in ids ==> IdStored(env, attachments, id)
    ensures forall id :: id in ids ==> Exists(env, attachments, id)
    ensures Checksums(env, attachments, ids) == JoinedChecksums(env, attachments, ids)
  {
    if ids != [] {
      var rest := ids[1..];
      forall id | id in rest
        ensures id in ids
      {
      }
      ChecksumsJoined(env, attachments, rest);
      assert ids[0] in ids;
      var sums := seq(|ids|, i requires 0 <= i < |ids| => ChecksumOf(env, attachments, ids[i]));
      assert sums[1..] == seq(|rest|, i requires 0 <= i < |rest| => ChecksumOf(env, attachments, rest[i]));
    }
  }

  lemma EarlyExactly(env: Env, data: FunctionData)
    ensures EarlyCheck(env, data).Ok? <==> EarlyAccepted(env, data)
    ensures EarlyCheck(env, data).Ok? ==> VersionFor(env, data.version, EarlyCheck(env, data).value)
    ensures EarlyCheck(env, data).Err? ==> forall attachments :: RejectedFor(env, attachments, data, EarlyCheck(env, data).error)
  {
  }

  lemma LateExactly(env: Env, attachments: map<Uuid, Attachment>, data: FunctionData, version: Version, now: nat)
    requires EarlyCheck(env, data) == Ok(version)
    ensures LateCheck(env, attachments, data, version, now).Ok? <==> Accepted(env, attachments, data)
    ensures Accepted(env, attachments, data) ==> StoredFor(env, attachments, data, now, LateCheck(env, attachments, data, version, now).value)
    ensures LateCheck(env, attachments, data, version, now).Err? ==>
              RejectedFor(env, attachments, data, LateCheck(env, attachments, data, version, now).error)
  {
    EarlyExactly(env, data);
    assert Ids(data) == data.attachments + CodeIds(data.code);
    forall id
      ensures IdStored(env, attachments, id) <==> Exists(env, attachments, id)
    {
    }
    MissingIdsAre(env, attachments, Ids(data));
    if forall id :: id in Ids(data) ==> IdStored(env, attachments, id) {
      ChecksumsJoined(env, attachments, Ids(data));
    }
  }

  /** The functions stored afterwards: those with another name or version, and `f` if there is one. */
  ghost predicate Replaced(fs: seq<Function>, name: string, version: Version, f: Option<Function>, fs': seq<Function>) {
    forall g :: g in fs' <==> (g in fs && !(g.name == name && SameVersion(g.version, version))) || f == Some(g)
  }

  /** What a request comes to, without naming the checks: accepted, the answer is what is stored for it, in
      the place of what had its name and version; rejected early, nothing changes; rejected late, what had its
      name and version is gone. */
  ghost predicate RegisterEnds(env: Env, attachments: map<Uuid, Attachment>, fs: seq<Function>, data: FunctionData, now: nat,
                               fs': seq<Function>, r: Result<Resolved, Status>)
  {
    if Accepted(env, attachments, data) then
      && r.Ok? && StoredFor(env, attachments, data, now, r.value.function_) && Complete(env, attachments, r.value)
      && Replaced(fs, data.name, r.value.function_.version, Some(r.value.function_), fs')
    else
      && r.Err? && RejectedFor(env, attachments, data, r.error)
      && if EarlyAccepted(env, data) then exists v :: VersionFor(env, data.version, v) && Replaced(fs, data.name, v, None, fs')
         else fs' == fs
  }

  lemma RegisterEndsSo(env: Env, s: State, data: FunctionData, now: nat)
    ensures var (s', r) := RegisterStep(env, s, data, now);
            RegisterEnds(env, s.attachments, s.functions, data, now, s'.functions, r)
  {
    EarlyExactly(env, data);
    if EarlyCheck(env, data).Ok? {
      var version := EarlyCheck(env, data).value;
      LateExactly(env, s.attachments, data, version, now);
      var late := LateCheck(env, s.attachments, data, version, now);
      if late.Ok? {
        LateCheckRefers(env, s.attachments, data, version, now);
        ReferencesResolve(env, s.attachments, late.value);
        ResolveCompletes(env, s.attachments, late.value);
      }
    }
  }

  /** What registering an attachment comes to: its file is new and empty before its entry is made, and stays if
      its path is no URL. */
  ghost predicate AttachEnds(s: State, data: AttachmentData, fileName: string, id: Uuid, now: nat, pathOk: bool,
                             s': State, r: Result<Uuid, Status>)
  {
    var accepted := data.name != "" && data.sha256.Some? && PublisherAccepted(data.publisher) && fileName !in s.files;
    && s'.functions == s.functions
    && s'.files == (if accepted then s.files + {fileName} else s.files)
    && (r.Ok? <==> accepted && pathOk)
    && (if r.Ok? then
          && r.value == id && s'.attachments.Keys == s.attachments.Keys + {id}
          && (forall k :: k in s.attachments && k != id ==> s'.attachments[k] == s.attachments[k])
          && var a := s'.attachments[id];
          && a.name == data.name && a.sha256 == data.sha256.value && a.publisher == data.publisher.value
          && a.createdAt == now && a.body == data.body
        else
          && s'.attachments == s.attachments
          && r.error == if data.name == "" then AttachmentNameRequired
                        else if data.sha256.None? then ChecksumRequired
                        else if data.publisher.None? then PublisherRequired
                        else if data.publisher.value.name == "" then PublisherNameRequired
                        else if data.publisher.value.email == "" then PublisherEmailRequired
                        else if fileName in s.files then FileNotCreated
                        else PathNotUrl)
  }

  lemma AttachEndsSo(env: Env, s: State, data: AttachmentData, id: Uuid, now: nat, pathOk: bool)
    ensures var (s', r) := AttachStep(env, s, data, id, now, pathOk);
            AttachEnds(s, data, env.showUuid(id), id, now, pathOk, s', r)
  {
  }

  // ---------- runs ----------

  datatype Op = Register(data: FunctionData, now: nat) | Attach(attachment: AttachmentData, id: Uuid, now: nat, pathOk: bool)

  function Step(env: Env, s: State, op: Op): State {
    match op
    case Register(data, now) => RegisterStep(env, s, data, now).0
    case Attach(data, id, now, pathOk) => AttachStep(env, s, data, id, now, pathOk).0
  }

  function Run(env: Env, ops: seq<Op>): State {
    if ops == [] then State([], map[], {}) else Step(env, Run(env, ops[..|ops| - 1]), ops[|ops| - 1])
  }

  /** In every run no two functions share a key and every reference is stored. */
  lemma {:induction false} RunKeepsInv(env: Env, ops: seq<Op>)
    ensures Inv(env, Run(env, ops))
  {
    if ops != [] {
      var s := Run(env, ops[..|ops| - 1]);
      RunKeepsInv(env, ops[..|ops| - 1]);
      match ops[|ops| - 1]
      case Register(data, now) => RegisterRefinesMap(env, s, data, now);
      case Attach(data, id, now, pathOk) => AttachKeepsInv(env, s, data, id, now, pathOk);
    }
  }

  /** Registrations under different keys commute, whether they succeed or fail. */
  lemma RegistrationsCommute(env: Env, s: State, a: FunctionData, b: FunctionData, t: nat, u: nat)
    requires Inv(env, s)
    requires EarlyCheck(env, a).Ok? && EarlyCheck(env, b).Ok? ==>
               (a.name, Release(EarlyCheck(env, a).value)) != (b.name, Release(EarlyCheck(env, b).value))
    ensures var ab := Step(env, Step(env, s, Register(a, t)), Register(b, u));
            var ba := Step(env, Step(env, s, Register(b, u)), Register(a, t));
            Abs(ab.functions) == Abs(ba.functions) && Elements(ab.functions) == Elements(ba.functions)
            && ab.attachments == ba.attachments
  {
    RegisterRefinesMap(env, s, a, t);
    RegisterRefinesMap(env, s, b, u);
    var sa := Step(env, s, Register(a, t));
    var sb := Step(env, s, Register(b, u));
    RegisterRefinesMap(env, sa, b, u);
    RegisterRefinesMap(env, sb, a, t);
    MapRegistrationsCommute(env, s.attachments, Abs(s.functions), a, b, t, u);
    AbsByElements(Step(env, sa, Register(b, u)).functions, Step(env, sb, Register(a, t)).functions);
  }

  lemma MapRegistrationsCommute(env: Env, attachments: map<Uuid, Attachment>, m: map<(string, Version), Function>,
                                a: FunctionData, b: FunctionData, t: nat, u: nat)
    requires EarlyCheck(env, a).Ok? && EarlyCheck(env, b).Ok? ==>
               (a.name, Release(EarlyCheck(env, a).value)) != (b.name, Release(EarlyCheck(env, b).value))
    ensures MapRegister(env, attachments, MapRegister(env, attachments, m, a, t), b, u)
            == MapRegister(env, attachments, MapRegister(env, attachments, m, b, u), a, t)
  {
  }
}

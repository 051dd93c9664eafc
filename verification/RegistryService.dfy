/** Avery's registry service: the locked state and the requests that read and change it. */
module RegistryService {
  import opened Listing
  import opened Names
  import opened Order
  import opened Results
  import opened Semver
  import opened Catalog
  import opened Registry
  import Strings

  type Byte = bv8

  /** `ListVersions` wants the exact name, `List` a part of it. */
  predicate NameMatches(grouped: bool, wanted: string, f: Function) {
    if grouped then Strings.Contains(f.name, wanted) else f.name == wanted
  }

  function Matching(grouped: bool, name: string, requirement: Option<Requirement>): Function -> bool {
    f => NameMatches(grouped, name, f) && VersionMatches(requirement, f)
  }

  function Retaining(filters: Filters): Function -> bool {
    f => Retained(filters, f)
  }

  /** The requirement as a predicate; `None` inside if the request has none. */
  function ParseRequirement(env: Env, filters: Filters): Result<Option<Requirement>, Status> {
    match filters.requirement
    case None => Ok(None)
    case Some(text) =>
      match env.parseRequirement(text)
      case None => Err(BadRequirement)
      case Some(accepts) => Ok(Some(accepts))
  }

  function OrderingOf(filters: Filters): (o: Ordering)
    ensures filters.order.None? ==> !o.reverse && o.offset == 0 && o.limit == 100
    ensures filters.order.Some? ==> o == filters.order.value
  {
    match filters.order
    case Some(o) => o
    case None => DEFAULT_ORDERING
  }

  /** The stored functions a list request is about. */
  ghost function Listed(env: Env, fs: set<Function>, filters: Filters, grouped: bool): set<Function>
    requires ParseRequirement(env, filters).Ok?
  {
    Selection(fs, Matching(grouped, filters.name, ParseRequirement(env, filters).value), grouped, Retaining(filters))
  }

  /** The name and version are what the request asks for. */
  ghost predicate Wanted(env: Env, filters: Filters, grouped: bool, f: Function) {
    && (if grouped then Strings.Contains(f.name, filters.name) else f.name == filters.name)
    && match filters.requirement
       case None => true
       case Some(text) => env.parseRequirement(text).Some? && env.parseRequirement(text).value(f.version)
  }

  /** Listed is what is stored and wanted, if grouped the newest wanted of its name, and as the request describes
      it. */
  ghost predicate Shown(env: Env, fs: set<Function>, filters: Filters, grouped: bool, f: Function) {
    && f in fs && Wanted(env, filters, grouped, f) && Described(filters.metadata, filters.publisherEmail, f)
    && (grouped ==> forall g :: g in fs && g.name == f.name && Wanted(env, filters, grouped, g) ==> !VersionLess(f.version, g.version))
  }

  lemma ListedExactly(env: Env, fs: set<Function>, filters: Filters, grouped: bool, f: Function)
    requires ParseRequirement(env, filters).Ok?
    ensures f in Listed(env, fs, filters, grouped) <==> Shown(env, fs, filters, grouped, f)
  {
    var matching := Matching(grouped, filters.name, ParseRequirement(env, filters).value);
    forall g: Function
      ensures matching(g) <==> Wanted(env, filters, grouped, g)
    {
    }
    RetainedExactly(filters, f);
    var hits := set g | g in fs && matching(g);
    assert f in Listed(env, fs, filters, grouped) <==> f in (if grouped then Newest(hits) else hits) && Retaining(filters)(f);
    assert forall g :: g in hits <==> g in fs && Wanted(env, filters, grouped, g);
  }

  /** `answer` is a page of the listing with every function's attachments. */
  ghost predicate Answers(env: Env, s: State, filters: Filters, grouped: bool, page: seq<Function>, answer: seq<Resolved>)
    requires ParseRequirement(env, filters).Ok?
  {
    var o := OrderingOf(filters);
    && IsPage(Direction(Before, o.reverse), Listed(env, Elements(s.functions), filters, grouped), o.offset, o.limit, page)
    && answer == ResolveAll(env, s.attachments, page)
    && |answer| == |page|
    && forall i :: 0 <= i < |page| ==> answer[i].function_ == page[i]
  }

  /** The answer to a list request depends on what is stored, not on the order of registration, of
      map iteration or of equal elements in an unstable sort. */
  lemma ListDetermined(env: Env, s: State, t: State, filters: Filters, grouped: bool,
                       page: seq<Function>, answer: seq<Resolved>, page': seq<Function>, answer': seq<Resolved>)
    requires Inv(env, s) && Inv(env, t)
    requires Abs(s.functions) == Abs(t.functions) && s.attachments == t.attachments
    requires ParseRequirement(env, filters).Ok?
    requires Answers(env, s, filters, grouped, page, answer)
    requires Answers(env, t, filters, grouped, page', answer')
    ensures answer == answer'
  {
    AbsByElements(s.functions, t.functions);
    DistinctKeysAreUnique(s.functions);
    var o := OrderingOf(filters);
    var S := Elements(s.functions);
    SelectionKeepsKeysUnique(S, Matching(grouped, filters.name, ParseRequirement(env, filters).value), grouped, Retaining(filters));
    PageDetermined(Listed(env, S, filters, grouped), o.reverse, o.offset, o.limit, page, page');
  }

  /** An answer holds only what is to be shown, complete and in order. */
  lemma AnswersShow(env: Env, s: State, filters: Filters, grouped: bool, page: seq<Function>, answer: seq<Resolved>)
    requires Inv(env, s) && ParseRequirement(env, filters).Ok? && Answers(env, s, filters, grouped, page, answer)
    ensures |answer| <= OrderingOf(filters).limit
    ensures forall x :: x in answer ==> Complete(env, s.attachments, x) && Shown(env, Elements(s.functions), filters, grouped, x.function_)
    ensures forall i, j :: 0 <= i < j < |answer| ==> InOrder(OrderingOf(filters).reverse, answer[i].function_, answer[j].function_)
  {
    var o := OrderingOf(filters);
    var listed := Listed(env, Elements(s.functions), filters, grouped);
    PagesAreInOrder(listed, o.reverse, o.offset, o.limit, page);
    forall f | f in page
      ensures Shown(env, Elements(s.functions), filters, grouped, f)
    {
      ListedExactly(env, Elements(s.functions), filters, grouped, f);
    }
    ResolveAllDropsNothing(env, s.attachments, page);
    forall x | x in answer
      ensures x.function_ in page
    {
      var i :| 0 <= i < |answer| && answer[i] == x;
    }
  }

  lemma ShownAreStored(before: (Function, Function) -> bool, S: set<Function>, offset: nat, limit: nat, page: seq<Function>)
    requires IsPage(before, S, offset, limit, page)
    ensures forall f :: f in page ==> f in S
  {
    var s :| IsListing(before, S, s) && page == Page(s, offset, limit);
    forall f | f in page
      ensures f in S
    {
      assert f in Elements(s);
    }
  }

  // ---------- looking a function up to execute it ----------

  /** What execution asks the registry: one version of this name that meets the requirement. */
  function ExecutionQuery(name: string, requirement: string): Filters {
    Filters(name, Some(requirement), map[], Some(Ordering(false, 0, 1)), "")
  }

  predicate Runnable(env: Env, name: string, requirement: string, f: Function) {
    f.name == name && match env.parseRequirement(requirement) case None => false case Some(accepts) => accepts(f.version)
  }

  lemma RunnableAreListed(env: Env, fs: set<Function>, name: string, requirement: string)
    requires ParseRequirement(env, ExecutionQuery(name, requirement)).Ok?
    ensures Listed(env, fs, ExecutionQuery(name, requirement), false) == set f | f in fs && Runnable(env, name, requirement, f)
  {
    forall f: Function
      ensures Retained(ExecutionQuery(name, requirement), f)
    {
      assert Strings.OccursAt(f.publisher.email, "", 0);
    }
  }

  /** The answer is the newest stored function of that name that meets the requirement, or nothing if there
      is none. */
  lemma ExecutesTheNewest(env: Env, s: State, name: string, requirement: string, page: seq<Function>, answer: seq<Resolved>)
    requires Inv(env, s) && ParseRequirement(env, ExecutionQuery(name, requirement)).Ok?
    requires Answers(env, s, ExecutionQuery(name, requirement), false, page, answer)
    ensures page == [] <==> forall f :: f in s.functions ==> !Runnable(env, name, requirement, f)
    ensures page != [] ==>
              && |answer| == 1 && answer[0].function_ == page[0]
              && page[0] in s.functions && Runnable(env, name, requirement, page[0])
              && forall f :: f in s.functions && Runnable(env, name, requirement, f) && f != page[0] ==>
                   VersionLess(f.version, page[0].version)
  {
    var S := Elements(s.functions);
    var runnable := set f | f in S && Runnable(env, name, requirement, f);
    RunnableAreListed(env, S, name, requirement);
    BeforeWeak();
    FirstPageIsTop(Before, runnable, 1, page);
    assert IsTop(Before, runnable, 1, page);
    DistinctKeysAreUnique(s.functions);
    UniqueKeysNeverTie(runnable, false);
    if page == [] {
      assert |runnable| == 0;
      forall f | f in s.functions
        ensures !Runnable(env, name, requirement, f)
      {
        assert f !in runnable;
      }
    } else {
      assert page[0] in Elements(page);
      assert Direction(Before, false) == Before;
      StringLessTotal();
      forall f | f in s.functions && Runnable(env, name, requirement, f) && f != page[0]
        ensures VersionLess(f.version, page[0].version)
      {
        assert f in runnable && f !in page;
      }
    }
  }

  // ---------- uploads ----------

  datatype Chunk = Chunk(id: Option<string>, content: seq<Byte>) | StreamBroke

  datatype UploadError = Broken | IdMissing | NotStored(status: Status) | NothingUploaded | ChecksumMismatch

  datatype Hashing = Hashing(sha256: seq<Byte> -> seq<Byte>, hexDecode: string -> Option<seq<Byte>>)

  /** How far an upload has come: what was hashed, the attachment of the first chunk, and the file that
      was opened with what it held before. */
  datatype Progress = Progress(hashed: seq<Byte>, attachment: Option<Attachment>, path: Option<string>, before: seq<Byte>)

  const START := Progress([], None, None, [])

  /** Writing from the start of a file leaves what lies beyond the last byte written. */
  function Overlay(before: seq<Byte>, written: seq<Byte>): seq<Byte> {
    written + if |written| < |before| then before[|written|..] else []
  }

  function Verdict(h: Hashing, hashed: seq<Byte>, attachment: Option<Attachment>): Result<(), UploadError> {
    match attachment
    case None => Err(NothingUploaded)
    case Some(a) =>
      var expected := match h.hexDecode(a.sha256) case Some(bytes) => bytes case None => [];
      if h.sha256(hashed) == expected then Ok(()) else Err(ChecksumMismatch)
  }

  function Advance(p: Progress, files: map<string, seq<Byte>>, a: Attachment, id: string, content: seq<Byte>): Progress {
    Progress(
      p.hashed + content,
      if p.attachment.Some? then p.attachment else Some(a),
      if p.path.Some? then p.path else Some(id),
      if p.path.Some? then p.before else if id in files then files[id] else [])
  }

  /** What remains of the files and the answer, after the rest of the stream. */
  function Receive(env: Env, h: Hashing, attachments: map<Uuid, Attachment>, files: map<string, seq<Byte>>,
                   p: Progress, chunks: seq<Chunk>): (map<string, seq<Byte>>, Result<(), UploadError>)
    decreases |chunks|
  {
    if chunks == [] then (files, Verdict(h, p.hashed, p.attachment))
    else
      match chunks[0]
      case StreamBroke => (if p.path.Some? then files - {p.path.value} else files, Err(Broken))
      case Chunk(None, _) => (files, Err(IdMissing))
      case Chunk(Some(id), content) =>
        match GetAttachment(env, attachments, id)
        case Err(e) => (files, Err(NotStored(e)))
        case Ok(a) =>
          var p' := Advance(p, files, a, id, content);
          Receive(env, h, attachments, files[p'.path.value := Overlay(p'.before, p'.hashed)], p', chunks[1..])
  }

  // ---------- what an upload amounts to ----------

  /** The chunk arrived and names an attachment that is stored. */
  predicate Taken(env: Env, attachments: map<Uuid, Attachment>, c: Chunk) {
    c.Chunk? && c.id.Some? && env.parseUuid(c.id.value).Some? && env.parseUuid(c.id.value).value in attachments
  }

  ghost predicate AllTaken(env: Env, attachments: map<Uuid, Attachment>, chunks: seq<Chunk>) {
    forall i :: 0 <= i < |chunks| ==> Taken(env, attachments, chunks[i])
  }

  /** Chunk `i` is the first that is not. */
  ghost predicate FirstRefused(env: Env, attachments: map<Uuid, Attachment>, chunks: seq<Chunk>, i: int) {
    0 <= i < |chunks| && !Taken(env, attachments, chunks[i]) && AllTaken(env, attachments, chunks[..i])
  }

  /** The contents of the chunks one after the other. */
  function Contents(chunks: seq<Chunk>): seq<Byte> {
    Flatten(seq(|chunks|, i requires 0 <= i < |chunks| => if chunks[i].Chunk? then chunks[i].content else []))
  }

  lemma ContentsFirst(chunks: seq<Chunk>)
    requires chunks != [] && chunks[0].Chunk?
    ensures Contents(chunks) == chunks[0].content + Contents(chunks[1..])
  {
    var lists := seq(|chunks|, i requires 0 <= i < |chunks| => if chunks[i].Chunk? then chunks[i].content else []);
    var rest := chunks[1..];
    assert lists[1..] == seq(|rest|, i requires 0 <= i < |rest| => if rest[i].Chunk? then rest[i].content else []);
  }

  /** The file holds what was written, and beyond it what it held before. */
  ghost predicate WrittenOver(before: seq<Byte>, written: seq<Byte>, file: seq<Byte>) {
    && |file| == (if |written| < |before| then |before| else |written|)
    && (forall i :: 0 <= i < |written| ==> file[i] == written[i])
    && (forall i :: |written| <= i < |file| ==> file[i] == before[i])
  }

  lemma OverlayWritesOver(before: seq<Byte>, written: seq<Byte>)
    ensures WrittenOver(before, written, Overlay(before, written))
  {
  }

  /** All the files are as they were but that of `id`, which holds what was written over what it held. */
  ghost predicate OnlyWrote(files: map<string, seq<Byte>>, id: string, written: seq<Byte>, files': map<string, seq<Byte>>) {
    && files'.Keys == files.Keys + {id}
    && (forall k :: k in files && k != id ==> files'[k] == files[k])
    && WrittenOver(if id in files then files[id] else [], written, files'[id])
  }

  /** The digest of the bytes is the attachment's checksum, of which nothing is left if it is no hex. */
  ghost predicate DigestMatches(h: Hashing, a: Attachment, bytes: seq<Byte>) {
    h.sha256(bytes) == if h.hexDecode(a.sha256).Some? then h.hexDecode(a.sha256).value else []
  }

  /** What the answer must be after a stream whose chunks were all taken: the digest of the whole decides,
      compared with the checksum of the first chunk's attachment. */
  ghost predicate DigestDecides(env: Env, h: Hashing, attachments: map<Uuid, Attachment>, chunks: seq<Chunk>, r: Result<(), UploadError>)
    requires chunks != [] && Taken(env, attachments, chunks[0])
  {
    var first := attachments[env.parseUuid(chunks[0].id.value).value];
    r == if DigestMatches(h, first, Contents(chunks)) then Ok(()) else Err(ChecksumMismatch)
  }

  /** What the answer must be when a chunk was refused. */
  predicate RefusedFor(env: Env, c: Chunk, r: Result<(), UploadError>) {
    match c
    case StreamBroke => r == Err(Broken)
    case Chunk(None, _) => r == Err(IdMissing)
    case Chunk(Some(id), _) => r == Err(NotStored(if env.parseUuid(id).None? then BadUuid else AttachmentNotFound))
  }

  /** Files and answer after a whole stream. */
  ghost predicate UploadEnds(env: Env, h: Hashing, attachments: map<Uuid, Attachment>, files: map<string, seq<Byte>>, chunks: seq<Chunk>,
                             files': map<string, seq<Byte>>, r: Result<(), UploadError>)
  {
    && (chunks == [] ==> r == Err(NothingUploaded) && files' == files)
    && (chunks != [] && AllTaken(env, attachments, chunks) ==>
          DigestDecides(env, h, attachments, chunks, r) && OnlyWrote(files, chunks[0].id.value, Contents(chunks), files'))
    && (forall i :: FirstRefused(env, attachments, chunks, i) ==>
          && RefusedFor(env, chunks[i], r)
          && if i == 0 then files' == files
             else if chunks[i].StreamBroke? then files' == files - {chunks[0].id.value}
             else OnlyWrote(files, chunks[0].id.value, Contents(chunks[..i]), files'))
  }

  /** A stream under way: the file of `id` holds what has been hashed, and all chunks so far were taken. */
  ghost predicate UnderWay(env: Env, attachments: map<Uuid, Attachment>, files: map<string, seq<Byte>>, p: Progress, id: string) {
    && env.parseUuid(id).Some? && env.parseUuid(id).value in attachments
    && p.path == Some(id) && p.attachment == Some(attachments[env.parseUuid(id).value])
    && id in files && files[id] == Overlay(p.before, p.hashed)
  }

  /** The rest of a stream under way, all taken. */
  lemma {:induction false} RestTaken(env: Env, h: Hashing, attachments: map<Uuid, Attachment>, files: map<string, seq<Byte>>,
                                     p: Progress, id: string, chunks: seq<Chunk>)
    requires UnderWay(env, attachments, files, p, id) && AllTaken(env, attachments, chunks)
    ensures Receive(env, h, attachments, files, p, chunks)
            == (files[id := Overlay(p.before, p.hashed + Contents(chunks))], Verdict(h, p.hashed + Contents(chunks), p.attachment))
    decreases |chunks|
  {
    if chunks == [] {
      assert p.hashed + Contents(chunks) == p.hashed;
      assert files[id := files[id]] == files;
    } else {
      assert Taken(env, attachments, chunks[0]);
      var p' := p.(hashed := p.hashed + chunks[0].content);
      var files' := files[id := Overlay(p.before, p'.hashed)];
      RestTaken(env, h, attachments, files', p', id, chunks[1..]);
      ContentsFirst(chunks);
      assert p'.hashed + Contents(chunks[1..]) == p.hashed + Contents(chunks);
      assert files'[id := Overlay(p.before, p.hashed + Contents(chunks))] == files[id := Overlay(p.before, p.hashed + Contents(chunks))];
    }
  }

  /** The rest of a stream under way, up to a chunk that is refused. */
  lemma {:induction false} RestRefused(env: Env, h: Hashing, attachments: map<Uuid, Attachment>, files: map<string, seq<Byte>>,
                                       p: Progress, id: string, chunks: seq<Chunk>, i: int)
    requires UnderWay(env, attachments, files, p, id) && FirstRefused(env, attachments, chunks, i)
    ensures var (files', r) := Receive(env, h, attachments, files, p, chunks);
            && RefusedFor(env, chunks[i], r)
            && files' == if chunks[i].StreamBroke? then files - {id} else files[id := Overlay(p.before, p.hashed + Contents(chunks[..i]))]
    decreases |chunks|
  {
    if i == 0 {
      assert chunks[..0] == [] && p.hashed + Contents([]) == p.hashed;
      assert files[id := files[id]] == files;
    } else {
      assert chunks[..i][0] == chunks[0] && Taken(env, attachments, chunks[..i][0]);
      var p' := p.(hashed := p.hashed + chunks[0].content);
      var files' := files[id := Overlay(p.before, p'.hashed)];
      assert chunks[1..][..i - 1] == chunks[..i][1..];
      assert forall j :: 0 <= j < i - 1 ==> chunks[..i][1..][j] == chunks[..i][j + 1];
      RestRefused(env, h, attachments, files', p', id, chunks[1..], i - 1);
      ContentsFirst(chunks[..i]);
      assert p'.hashed + Contents(chunks[1..][..i - 1]) == p.hashed + Contents(chunks[..i]);
      assert files' - {id} == files - {id};
      var all := Overlay(p.before, p.hashed + Contents(chunks[..i]));
      assert files'[id := all] == files[id := all];
    }
  }

  lemma Wrote(files: map<string, seq<Byte>>, id: string, written: seq<Byte>)
    ensures OnlyWrote(files, id, written, files[id := Overlay(if id in files then files[id] else [], written)])
  {
    OverlayWritesOver(if id in files then files[id] else [], written);
  }

  /** The first chunk, when it is taken, opens its file. */
  lemma FirstTaken(env: Env, h: Hashing, attachments: map<Uuid, Attachment>, files: map<string, seq<Byte>>, chunks: seq<Chunk>)
    requires chunks != [] && Taken(env, attachments, chunks[0])
    ensures var id := chunks[0].id.value;
            var p := Advance(START, files, attachments[env.parseUuid(id).value], id, chunks[0].content);
            && p.before == (if id in files then files[id] else []) && p.hashed == chunks[0].content
            && UnderWay(env, attachments, files[id := Overlay(p.before, p.hashed)], p, id)
            && Receive(env, h, attachments, files, START, chunks)
               == Receive(env, h, attachments, files[id := Overlay(p.before, p.hashed)], p, chunks[1..])
  {
    assert [] + chunks[0].content == chunks[0].content;
  }

  lemma AllTakenEnds(env: Env, h: Hashing, attachments: map<Uuid, Attachment>, files: map<string, seq<Byte>>, chunks: seq<Chunk>)
    requires chunks != [] && AllTaken(env, attachments, chunks)
    ensures var (files', r) := Receive(env, h, attachments, files, START, chunks);
            DigestDecides(env, h, attachments, chunks, r) && OnlyWrote(files, chunks[0].id.value, Contents(chunks), files')
  {
    var id := chunks[0].id.value;
    var p := Advance(START, files, attachments[env.parseUuid(id).value], id, chunks[0].content);
    var begun := files[id := Overlay(p.before, p.hashed)];
    FirstTaken(env, h, attachments, files, chunks);
    RestTaken(env, h, attachments, begun, p, id, chunks[1..]);
    ContentsFirst(chunks);
    var all := Overlay(p.before, Contents(chunks));
    assert begun[id := all] == files[id := all];
    Wrote(files, id, Contents(chunks));
  }

  lemma RefusedEnds(env: Env, h: Hashing, attachments: map<Uuid, Attachment>, files: map<string, seq<Byte>>, chunks: seq<Chunk>, i: int)
    requires FirstRefused(env, attachments, chunks, i)
    ensures var (files', r) := Receive(env, h, attachments, files, START, chunks);
            && RefusedFor(env, chunks[i], r)
            && if i == 0 then files' == files
               else if chunks[i].StreamBroke? then files' == files - {chunks[0].id.value}
               else OnlyWrote(files, chunks[0].id.value, Contents(chunks[..i]), files')
  {
    if i > 0 {
      assert chunks[..i][0] == chunks[0] && Taken(env, attachments, chunks[..i][0]);
      var id := chunks[0].id.value;
      var p := Advance(START, files, attachments[env.parseUuid(id).value], id, chunks[0].content);
      var begun := files[id := Overlay(p.before, p.hashed)];
      FirstTaken(env, h, attachments, files, chunks);
      assert chunks[1..][..i - 1] == chunks[..i][1..];
      assert forall j :: 0 <= j < i - 1 ==> chunks[..i][1..][j] == chunks[..i][j + 1];
      RestRefused(env, h, attachments, begun, p, id, chunks[1..], i - 1);
      ContentsFirst(chunks[..i]);
      var all := Overlay(p.before, Contents(chunks[..i]));
      assert begun[id := all] == files[id := all] && begun - {id} == files - {id};
      Wrote(files, id, Contents(chunks[..i]));
    }
  }

  /** What a stream leaves behind: an accepted one the whole file, if the digest is right, and a refused one
      what came before the refused chunk, or nothing if the stream broke. */
  lemma UploadEndsSo(env: Env, h: Hashing, attachments: map<Uuid, Attachment>, files: map<string, seq<Byte>>, chunks: seq<Chunk>)
    ensures var (files', r) := Receive(env, h, attachments, files, START, chunks);
            UploadEnds(env, h, attachments, files, chunks, files', r)
  {
    if chunks != [] && AllTaken(env, attachments, chunks) {
      AllTakenEnds(env, h, attachments, files, chunks);
    }
    forall i | FirstRefused(env, attachments, chunks, i)
      ensures var (files', r) := Receive(env, h, attachments, files, START, chunks);
              && RefusedFor(env, chunks[i], r)
              && if i == 0 then files' == files
                 else if chunks[i].StreamBroke? then files' == files - {chunks[0].id.value}
                 else OnlyWrote(files, chunks[0].id.value, Contents(chunks[..i]), files')
    {
      RefusedEnds(env, h, attachments, files, chunks, i);
    }
  }

  class RegistryService {
    const env: Env
    const hashing: Hashing
    var functions: seq<Function>
    var attachments: map<Uuid, Attachment>
    var files: map<string, seq<Byte>>

    ghost function Current(): State
      reads this
    {
      State(functions, attachments, files.Keys)
    }

    ghost predicate Valid()
      reads this
    {
      Inv(env, Current())
    }

    constructor (env: Env, hashing: Hashing)
      ensures Valid() && this.env == env && this.hashing == hashing
      ensures functions == [] && attachments == map[] && files == map[]
    {
      this.env := env;
      this.hashing := hashing;
      functions, attachments, files := [], map[], map[];
    }

    method Register(data: FunctionData, now: nat) returns (r: Result<Resolved, Status>)
      requires Valid()
      modifies this`functions
      ensures Valid()
      ensures (Current(), r) == RegisterStep(env, old(Current()), data, now)
      ensures Abs(functions) == MapRegister(env, attachments, old(Abs(functions)), data, now)
      ensures RegisterEnds(env, attachments, old(functions), data, now, functions, r)
    {
      RegisterEndsSo(env, Current(), data, now);
      RegisterRefinesMap(env, Current(), data, now);
      var checked := ValidateByBytes(data.name);
      if checked.Err? {
        return Err(BadName(checked.error));
      }
      var version := StoredVersion(env, data.version);
      if version.None? {
        return Err(BadVersion);
      }
      functions := Without(functions, data.name, version.value);
      if !data.hasRuntime {
        return Err(RuntimeRequired);
      }
      var ids := data.attachments + CodeIds(data.code);
      var missing := MissingIds(env, attachments, ids);
      if missing != [] {
        return Err(AttachmentsNotFound(missing));
      }
      var checksum := env.digest(Checksums(env, attachments, ids));
      var publisher := CheckPublisher(data.publisher);
      if publisher.Err? {
        return Err(publisher.error);
      }
      var f := Function(data.name, version.value, data.metadata["_dev-checksum" := checksum], publisher.value,
                        data.code, data.attachments, now, data.body);
      functions := functions + [f];
      r := Resolve(env, attachments, f);
    }

    method RegisterAttachment(data: AttachmentData, id: Uuid, now: nat, pathOk: bool) returns (r: Result<Uuid, Status>)
      requires Valid()
      modifies this`attachments, this`files
      ensures Valid()
      ensures (Current(), r) == AttachStep(env, old(Current()), data, id, now, pathOk)
      ensures r.Ok? ==> files == old(files)[env.showUuid(id) := []]
      ensures AttachEnds(old(Current()), data, env.showUuid(id), id, now, pathOk, Current(), r)
    {
      AttachEndsSo(env, Current(), data, id, now, pathOk);
      AttachKeepsInv(env, Current(), data, id, now, pathOk);
      if data.name == "" {
        return Err(AttachmentNameRequired);
      }
      if data.sha256.None? {
        return Err(ChecksumRequired);
      }
      var publisher := CheckPublisher(data.publisher);
      if publisher.Err? {
        return Err(publisher.error);
      }
      if env.showUuid(id) in files {
        return Err(FileNotCreated);
      }
      files := files[env.showUuid(id) := []];
      assert files.Keys == old(files.Keys) + {env.showUuid(id)};
      if !pathOk {
        return Err(PathNotUrl);
      }
      attachments := attachments[id := Attachment(data.name, data.sha256.value, publisher.value, now, data.body)];
      r := Ok(id);
    }

    predicate NamedSo(i: int, name: string, version: string)
      reads this
    {
      0 <= i < |functions| && functions[i].name == name && env.showVersion(functions[i].version) == version
    }

    /** The function registered last with this name whose version prints as given. */
    method Get(name: string, version: string) returns (r: Result<Resolved, Status>)
      requires Valid()
      ensures r.Ok? ==> Complete(env, attachments, r.value)
      ensures r.Ok? ==> exists i :: NamedSo(i, name, version) && r.value.function_ == functions[i]
                                    && forall j :: i < j < |functions| ==> !NamedSo(j, name, version)
      ensures r.Err? ==> r.error == FunctionNotFound && forall i :: !NamedSo(i, name, version)
    {
      var i := |functions|;
      while i > 0
        invariant 0 <= i <= |functions|
        invariant forall j :: i <= j < |functions| ==> !NamedSo(j, name, version)
      {
        i := i - 1;
        if functions[i].name == name && env.showVersion(functions[i].version) == version {
          assert functions[i] in functions && NamedSo(i, name, version);
          ReferencesResolve(env, attachments, functions[i]);
          ResolveCompletes(env, attachments, functions[i]);
          return Resolve(env, attachments, functions[i]);
        }
      }
      r := Err(FunctionNotFound);
    }

    /** `list` when grouped, `list_versions` otherwise. */
    method List(filters: Filters, grouped: bool) returns (r: Result<seq<Resolved>, Status>)
      requires Valid()
      ensures match ParseRequirement(env, filters)
              case Err(e) => r == Err(e)
              case Ok(_) => r.Ok? && exists page :: Answers(env, Current(), filters, grouped, page, r.value)
      ensures r.Ok? ==> |r.value| <= (if filters.order.Some? then filters.order.value.limit else 100)
      ensures r.Ok? ==> forall x :: x in r.value ==>
                Complete(env, attachments, x) && Shown(env, Elements(functions), filters, grouped, x.function_)
      ensures r.Ok? ==> forall i, j :: 0 <= i < j < |r.value| ==>
                InOrder(filters.order.Some? && filters.order.value.reverse, r.value[i].function_, r.value[j].function_)
    {
      var requirement := ParseRequirement(env, filters);
      if requirement.Err? {
        return Err(requirement.error);
      }
      var o := OrderingOf(filters);
      var matching := Matching(grouped, filters.name, requirement.value);
      var values := Groups(Select(matching, functions));
      var listing := SelectAndSort(functions, matching, grouped, values, Retaining(filters), o.reverse);
      var page := Page(listing, o.offset, o.limit);
      r := Ok(ResolveAll(env, attachments, page));

      DistinctKeysAreUnique(functions);
      SelectAndSortLists(functions, matching, grouped, values, Retaining(filters), o.reverse);
      var shown := Listed(env, Elements(functions), filters, grouped);
      assert IsPage(Direction(Before, o.reverse), shown, o.offset, o.limit, page);
      ShownAreStored(Direction(Before, o.reverse), shown, o.offset, o.limit, page);
      ResolveAllDropsNothing(env, attachments, page);
      assert Answers(env, Current(), filters, grouped, page, r.value);
      AnswersShow(env, Current(), filters, grouped, page, r.value);
    }

    /** Receives an attachment chunk by chunk, hashing what is written. */
    method UploadStreamAttachment(chunks: seq<Chunk>) returns (r: Result<(), UploadError>)
      modifies this`files
      ensures (files, r) == Receive(env, hashing, attachments, old(files), START, chunks)
      ensures UploadEnds(env, hashing, attachments, old(files), chunks, files, r)
    {
      UploadEndsSo(env, hashing, attachments, files, chunks);
      var hashed: seq<Byte> := [];
      var attachment: Option<Attachment> := None;
      var path: Option<string> := None;
      var cursor := 0;
      ghost var before: seq<Byte> := [];
      var i := 0;
      while i < |chunks|
        invariant 0 <= i <= |chunks| && cursor == |hashed| && (path.None? ==> hashed == [])
        invariant path.Some? ==> path.value in files && files[path.value] == Overlay(before, hashed)
        invariant Receive(env, hashing, attachments, old(files), START, chunks)
                  == Receive(env, hashing, attachments, files, Progress(hashed, attachment, path, before), chunks[i..])
      {
        ghost var stored, p := files, Progress(hashed, attachment, path, before);
        match chunks[i]
        case StreamBroke =>
          if path.Some? {
            files := files - {path.value};
          }
          return Err(Broken);
        case Chunk(None, _) =>
          return Err(IdMissing);
        case Chunk(Some(id), content) =>
          var found := GetAttachment(env, attachments, id);
          if found.Err? {
            return Err(NotStored(found.error));
          }
          if path.None? {
            path := Some(id);
            before := if id in files then files[id] else [];
            if id !in files {
              files := files[id := []];
            }
          }
          OverwriteExtends(before, hashed, content);
          files := files[path.value := Overwrite(files[path.value], cursor, content)];
          cursor := cursor + |content|;
          hashed := hashed + content;
          if attachment.None? {
            attachment := Some(found.value);
          }
          assert chunks[i..][1..] == chunks[i + 1..];
          assert Progress(hashed, attachment, path, before) == Advance(p, stored, found.value, id, content);
          assert files == stored[path.value := Overlay(before, hashed)];
          i := i + 1;
      }
      r := Verdict(hashing, hashed, attachment);
    }
  }

  /** Writing `content` at `offset` into a file at least that long. */
  function Overwrite(file: seq<Byte>, offset: nat, content: seq<Byte>): seq<Byte>
    requires offset <= |file|
  {
    file[..offset] + content + if offset + |content| < |file| then file[offset + |content|..] else []
  }

  lemma OverwriteExtends(before: seq<Byte>, written: seq<Byte>, content: seq<Byte>)
    ensures Overwrite(Overlay(before, written), |written|, content) == Overlay(before, written + content)
  {
  }
}

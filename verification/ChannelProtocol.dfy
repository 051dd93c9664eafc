/** One log shared by many handles. Every read of the cursor, compare-exchange, check of the closed
flag, append, close and seek is a step of its own, and the steps of all parties interleave.
*/
module ChannelProtocol {
  import Channels
  import Validation
  import opened ChannelData
  import opened Results

  type Id = int

  /** A successful compare-exchange on a cursor: by `reader`, asking for `size` elements of a log of
      length `len`, or by a seek. */
  datatype Event = Window(from: nat, to: nat, size: nat, len: nat, reader: Id) | Jump(from: nat, to: nat)

  /** A handle and what happened to its cursor since it was created. */
  datatype Handle = Handle(born: nat, pos: nat, seek: Option<SeekFrom>, history: seq<Event>)

  datatype Phase =
    | Idle
    | Loaded(seen: nat, at: nat)
    | Reserved(at: nat)
    | Viewing(at: nat, start: nat, end: Option<nat>)

  /** A read request; `len` is the length of the log when it was made, `since` the length of the
      handle's history then, and `parked` the window of its first poll that answered Pending. */
  datatype Read = Read(id: Id, handle: Id, size: nat, len: nat, since: nat, parked: Option<nat>, phase: Phase)

  /** An append that has found the channel open and waits for the write lock. */
  datatype Append = Append(handle: Id, value: TypedData)

  datatype State = State(data: TypedData, closed: bool, handles: map<Id, Handle>, requests: map<Id, Read>, writes: map<Id, Append>)

  datatype Action =
    | Clone(of: Id, id: Id)
    | Begin(read: Id, handle: Id, size: nat)
    | Load(read: Id)
    | CompareExchange(read: Id)
    | Decide(read: Id)
    | Drop(read: Id)
    | CheckOpen(write: Id, handle: Id, value: TypedData)
    | Write(write: Id)
    | Close(handle: Id)
    | StartSeek(handle: Id, seek: SeekFrom)
    | CompleteSeek(handle: Id)
    | AbandonSeek(handle: Id)

  /** No append has the handle to itself, so others may use it too. */
  predicate Shared(s: State, h: Id) {
    forall w :: w in s.writes ==> s.writes[w].handle != h
  }

  /** Nobody borrows the handle, so one may have it alone: to append, close or seek. */
  predicate Unborrowed(s: State, h: Id) {
    Shared(s, h) && forall r :: r in s.requests ==> s.requests[r].handle != h
  }

  predicate Live(s: State, r: Id) {
    r in s.requests && s.requests[r].handle in s.handles
  }

  predicate Enabled(s: State, a: Action) {
    match a
    case Clone(of, id) => of in s.handles && id !in s.handles && Shared(s, of)
    case Begin(r, h, size) => r !in s.requests && h in s.handles && Shared(s, h) && size < WORD
    case Load(r) => Live(s, r) && s.requests[r].phase.Idle?
    case CompareExchange(r) => Live(s, r) && s.requests[r].phase.Loaded?
    case Decide(r) =>
      && Live(s, r) && s.requests[r].phase.Reserved?
      && s.requests[r].phase.at < |s.handles[s.requests[r].handle].history|
    case Drop(r) => Live(s, r) && (s.requests[r].phase.Idle? || s.requests[r].phase.Viewing?)
    case CheckOpen(w, h, _) => w !in s.writes && h in s.handles && Unborrowed(s, h)
    case Write(w) =>
      // the write lock is exclusive, and a vector has at most isize::MAX elements
      && w in s.writes && s.requests == map[]
      && Len(s.data) + Len(s.writes[w].value) < HALF
    case Close(h) => h in s.handles && Unborrowed(s, h)
    case StartSeek(h, seek) => h in s.handles && Unborrowed(s, h) && SeekFits(seek)
    case CompleteSeek(h) =>
      && h in s.handles && Unborrowed(s, h)
      && s.handles[h].pos <= Len(s.data) < HALF
      && (s.handles[h].seek.Some? ==> SeekFits(s.handles[h].seek.value))
    case AbandonSeek(h) => h in s.handles && Unborrowed(s, h) && s.writes != map[]
  }

  /** The cursor moves and the history records it. */
  function Move(h: Handle, e: Event): Handle {
    h.(pos := e.to, history := h.history + [e])
  }

  /** The atomic operation a compare-exchange loop stands for. */
  function Reserve(h: Handle, size: nat, len: nat, reader: Id): Handle {
    Move(h, Reservation(h, size, len, reader))
  }

  function Reservation(h: Handle, size: nat, len: nat, reader: Id): Event {
    Window(h.pos, NextPos(h.pos, size, len), size, len, reader)
  }

  function Sought(h: Handle, len: nat): Handle
    requires h.pos <= len < HALF && (h.seek.Some? ==> SeekFits(h.seek.value))
  {
    if h.seek.None? then h
    else Move(h, Jump(h.pos, SeekTarget(h.seek.value, h.pos, len))).(seek := None)
  }

  /** The end of a poll whose compare-exchange made the window `e`. */
  function Decided(r: Read, at: nat, e: Event, closed: bool): Read {
    match Answer(e.from, e.to, r.size, closed)
    case Some((start, end)) => r.(phase := Viewing(at, start, end))
    case None => r.(phase := Idle, parked := if r.parked.Some? then r.parked else Some(at))
  }

  function Apply(s: State, a: Action): State
    requires Enabled(s, a)
  {
    match a
    case Clone(of, id) =>
      var h := s.handles[of];
      s.(handles := s.handles[id := Handle(h.pos, h.pos, h.seek, [])])
    case Begin(r, h, size) =>
      s.(requests := s.requests[r := Read(r, h, size, Len(s.data), |s.handles[h].history|, None, Idle)])
    case Load(r) =>
      var q := s.requests[r];
      var h := s.handles[q.handle];
      s.(requests := s.requests[r := q.(phase := Loaded(h.pos, |h.history|))])
    case CompareExchange(r) =>
      var q := s.requests[r];
      var h := s.handles[q.handle];
      if h.pos == q.phase.seen then
        s.(handles := s.handles[q.handle := Reserve(h, q.size, q.len, r)],
           requests := s.requests[r := q.(phase := Reserved(|h.history|))])
      else
        s.(requests := s.requests[r := q.(phase := Loaded(h.pos, |h.history|))])
    case Decide(r) =>
      var q := s.requests[r];
      var at := q.phase.at;
      s.(requests := s.requests[r := Decided(q, at, s.handles[q.handle].history[at], s.closed)])
    case Drop(r) => s.(requests := s.requests - {r})
    case CheckOpen(w, h, value) => if s.closed then s else s.(writes := s.writes[w := Append(h, value)])
    case Write(w) =>
      var v := s.writes[w].value;
      s.(data := if KindOf(v) == KindOf(s.data) then Extend(s.data, v) else s.data, writes := s.writes - {w})
    case Close(_) => s.(closed := true)
    case StartSeek(h, seek) =>
      if s.handles[h].seek.Some? then s else s.(handles := s.handles[h := s.handles[h].(seek := Some(seek))])
    case CompleteSeek(h) => s.(handles := s.handles[h := Sought(s.handles[h], Len(s.data))])
    case AbandonSeek(h) => s.(handles := s.handles[h := s.handles[h].(seek := None)])
  }

  // ---------- what every run keeps ----------

  /** The position before the event at index `k`. */
  function Position(h: Handle, k: nat): nat
    requires k <= |h.history|
  {
    if k == 0 then h.born else h.history[k - 1].to
  }

  /** A window is what an atomic reservation of that size would have made. */
  predicate Legal(e: Event, len: nat) {
    && e.from <= len && e.to <= len
    && (e.Window? ==> e.size < WORD && e.from <= e.len <= len && e.to == NextPos(e.from, e.size, e.len))
  }

  predicate EventOk(h: Handle, k: int, len: nat)
    requires 0 <= k < |h.history|
  {
    h.history[k].from == Position(h, k) && Legal(h.history[k], len)
  }

  /** The history is a sequential run of atomic reservations and seeks from the first position to the
      present one. */
  predicate HandleOk(h: Handle, len: nat) {
    && h.born <= len
    && h.pos == Position(h, |h.history|)
    && (forall k :: 0 <= k < |h.history| ==> EventOk(h, k, len))
    && (h.seek.Some? ==> SeekFits(h.seek.value))
  }

  /** The window at `at` was made by a read of this size from this length. */
  predicate WindowOf(h: Handle, r: Read, at: nat) {
    && r.since <= at < |h.history|
    && h.history[at].Window? && h.history[at].size == r.size && h.history[at].len == r.len && h.history[at].reader == r.id
  }

  predicate PhaseOk(h: Handle, r: Read, closed: bool) {
    match r.phase
    case Idle => true
    case Loaded(seen, at) => r.since <= at <= |h.history| && seen == Position(h, at) && LaterThan(at, r.parked)
    case Reserved(at) => WindowOf(h, r, at) && LaterThan(at, r.parked)
    case Viewing(at, start, end) =>
      && WindowOf(h, r, at) && LaterThan(at, r.parked)
      && start == h.history[at].from
      && (if (h.history[at].to - start) % WORD >= r.size then end == Some((start + r.size) % WORD)
          else end == None && closed)
  }

  predicate LaterThan(at: nat, parked: Option<nat>) {
    parked.Some? ==> parked.value < at
  }

  /** No seek has moved the handle since the read began. */
  predicate NoJumpSince(h: Handle, since: nat) {
    since <= |h.history| && forall k :: since <= k < |h.history| ==> h.history[k].Window?
  }

  /** A poll of the read made this window and got less than it wanted. */
  predicate FellShort(h: Handle, r: Read, at: nat) {
    WindowOf(h, r, at) && (h.history[at].to - h.history[at].from) % WORD < r.size
  }

  predicate ReadOk(h: Handle, r: Read, len: nat, closed: bool) {
    && r.len == len && r.size < WORD
    && NoJumpSince(h, r.since)
    && (r.parked.Some? ==> FellShort(h, r, r.parked.value))
    && PhaseOk(h, r, closed)
  }

  predicate RequestOk(s: State, r: Id)
    requires r in s.requests
  {
    && s.requests[r].handle in s.handles && s.requests[r].id == r
    && ReadOk(s.handles[s.requests[r].handle], s.requests[r], Len(s.data), s.closed)
  }

  predicate Inv(s: State) {
    && Len(s.data) < HALF
    && (forall h :: h in s.handles ==> HandleOk(s.handles[h], Len(s.data)))
    && (forall r :: r in s.requests ==> RequestOk(s, r))
  }

  /** A new channel and its first handle. */
  function Fresh(data: TypedData): State {
    State(data, false, map[0 := Handle(0, 0, None, [])], map[], map[])
  }

  lemma FreshInv(data: TypedData)
    requires Len(data) < HALF
    ensures Inv(Fresh(data))
  {
  }

  lemma MoveKeepsHandle(h: Handle, e: Event, len: nat)
    requires HandleOk(h, len) && e.from == h.pos && Legal(e, len)
    ensures HandleOk(Move(h, e), len)
  {
    var m := Move(h, e);
    forall k | 0 <= k < |m.history|
      ensures EventOk(m, k, len)
    {
      assert Position(m, k) == Position(h, k);
      if k < |h.history| {
        assert EventOk(h, k, len);
      }
    }
  }

  lemma PositionBound(h: Handle, len: nat, k: nat)
    requires HandleOk(h, len) && k <= |h.history|
    ensures Position(h, k) <= len
  {
    if k > 0 {
      assert EventOk(h, k - 1, len);
    }
  }

  lemma ReserveKeepsHandle(h: Handle, size: nat, len: nat, reader: Id)
    requires HandleOk(h, len) && size < WORD
    ensures HandleOk(Reserve(h, size, len, reader), len)
  {
    PositionBound(h, len, |h.history|);
    MoveKeepsHandle(h, Reservation(h, size, len, reader), len);
  }

  lemma SoughtKeepsHandle(h: Handle, len: nat)
    requires HandleOk(h, len) && h.pos <= len < HALF
    ensures HandleOk(Sought(h, len), len)
  {
    if h.seek.Some? {
      MoveKeepsHandle(h, Jump(h.pos, SeekTarget(h.seek.value, h.pos, len)), len);
      var m := Move(h, Jump(h.pos, SeekTarget(h.seek.value, h.pos, len)));
      var t := m.(seek := None);
      forall k | 0 <= k < |t.history|
        ensures EventOk(t, k, len)
      {
        assert EventOk(m, k, len);
      }
    }
  }

  lemma SeekFieldKeepsHandle(h: Handle, seek: Option<SeekFrom>, len: nat)
    requires HandleOk(h, len) && (seek.Some? ==> SeekFits(seek.value))
    ensures HandleOk(h.(seek := seek), len)
  {
    var t := h.(seek := seek);
    forall k | 0 <= k < |t.history|
      ensures EventOk(t, k, len)
    {
      assert EventOk(h, k, len);
    }
  }

  /** A window added by another read changes nothing for this one. */
  lemma MoveKeepsRead(h: Handle, e: Event, r: Read, len: nat, closed: bool)
    requires ReadOk(h, r, len, closed) && e.Window?
    ensures ReadOk(Move(h, e), r, len, closed)
  {
    var m := Move(h, e);
    assert forall k :: 0 <= k < |h.history| ==> m.history[k] == h.history[k];
    if r.phase.Loaded? {
      assert Position(m, r.phase.at) == Position(h, r.phase.at);
    }
  }

  lemma GrowthKeepsHandle(h: Handle, len: nat, len': nat)
    requires HandleOk(h, len) && len <= len'
    ensures HandleOk(h, len')
  {
    forall k | 0 <= k < |h.history|
      ensures EventOk(h, k, len')
    {
      assert EventOk(h, k, len);
    }
  }

  /** What steps of owners do, field by field: a clone is at the position of its original and has its seek, a
      close closes, a first seek is kept until it is completed or abandoned, an append is kept if the channel
      was open, and a read begins with the log as long as it is. */
  lemma OwnersAct(s: State, a: Action)
    requires Enabled(s, a)
    ensures a.Clone? ==>
              && Apply(s, a).handles.Keys == s.handles.Keys + {a.id}
              && (forall h :: h in s.handles ==> Apply(s, a).handles[h] == s.handles[h])
              && Apply(s, a).handles[a.id].pos == s.handles[a.of].pos && Apply(s, a).handles[a.id].seek == s.handles[a.of].seek
    ensures Apply(s, a).closed <==> s.closed || a.Close?
    ensures a.StartSeek? ==>
              Apply(s, a).handles[a.handle].seek == if s.handles[a.handle].seek.Some? then s.handles[a.handle].seek else Some(a.seek)
    ensures a.CompleteSeek? || a.AbandonSeek? ==>
              && a.handle in Apply(s, a).handles && Apply(s, a).handles[a.handle].seek == None
              && Apply(s, a).handles[a.handle].pos
                 == if a.CompleteSeek? && s.handles[a.handle].seek.Some?
                    then SeekTarget(s.handles[a.handle].seek.value, s.handles[a.handle].pos, Len(s.data)) else s.handles[a.handle].pos
    ensures a.CheckOpen? ==>
              && (a.write in Apply(s, a).writes <==> !s.closed)
              && (!s.closed ==> Apply(s, a).writes[a.write] == Append(a.handle, a.value))
    ensures a.Write? ==> Apply(s, a).writes.Keys == s.writes.Keys - {a.write}
    ensures a.Begin? ==>
              a.read in Apply(s, a).requests
              && Apply(s, a).requests[a.read].handle == a.handle && Apply(s, a).requests[a.read].size == a.size
              && Apply(s, a).requests[a.read].len == Len(s.data) && Apply(s, a).requests[a.read].phase == Idle
    ensures a.Load? ==> Apply(s, a).requests[a.read].phase.Loaded?
                        && Apply(s, a).requests[a.read].phase.seen == s.handles[s.requests[a.read].handle].pos
    ensures !a.Write? ==> Apply(s, a).data == s.data
  {
  }

  // ---------- each step ----------

  lemma CloneKeepsInv(s: State, of: Id, id: Id)
    requires Inv(s) && Enabled(s, Clone(of, id))
    ensures Inv(Apply(s, Clone(of, id)))
  {
    var t := Apply(s, Clone(of, id));
    PositionBound(s.handles[of], Len(s.data), |s.handles[of].history|);
    forall r | r in t.requests
      ensures RequestOk(t, r)
    {
      assert RequestOk(s, r);
    }
  }

  /** A step that changes one handle no read uses. */
  lemma HandleStepKeepsInv(s: State, h: Id, h': Handle)
    requires Inv(s) && h in s.handles && Unborrowed(s, h) && HandleOk(h', Len(s.data))
    ensures Inv(s.(handles := s.handles[h := h']))
  {
    var t := s.(handles := s.handles[h := h']);
    forall r | r in t.requests
      ensures RequestOk(t, r)
    {
      assert RequestOk(s, r);
    }
  }

  /** A step that changes one read and no handle. */
  lemma ReadStepKeepsInv(s: State, r: Id, q: Read)
    requires Inv(s) && q.handle in s.handles && q.id == r
    requires ReadOk(s.handles[q.handle], q, Len(s.data), s.closed)
    ensures Inv(s.(requests := s.requests[r := q]))
  {
    var t := s.(requests := s.requests[r := q]);
    forall i | i in t.requests
      ensures RequestOk(t, i)
    {
      if i != r {
        assert RequestOk(s, i);
      }
    }
  }

  lemma LoadKeepsRead(h: Handle, q: Read, len: nat, closed: bool)
    requires ReadOk(h, q, len, closed) && HandleOk(h, len)
    ensures ReadOk(h, q.(phase := Loaded(h.pos, |h.history|)), len, closed)
  {
  }

  lemma ReserveKeepsRead(h: Handle, q: Read, len: nat, closed: bool)
    requires ReadOk(h, q, len, closed) && HandleOk(h, len) && h.pos <= len
    ensures ReadOk(Reserve(h, q.size, len, q.id), q.(phase := Reserved(|h.history|)), len, closed)
  {
    MoveKeepsRead(h, Reservation(h, q.size, len, q.id), q, len, closed);
  }

  lemma DecideKeepsRead(h: Handle, q: Read, len: nat, closed: bool)
    requires ReadOk(h, q, len, closed) && q.phase.Reserved?
    ensures ReadOk(h, Decided(q, q.phase.at, h.history[q.phase.at], closed), len, closed)
  {
  }

  lemma CompareExchangeKeepsInv(s: State, r: Id)
    requires Inv(s) && Enabled(s, CompareExchange(r))
    ensures Inv(Apply(s, CompareExchange(r)))
  {
    var q := s.requests[r];
    var h := s.handles[q.handle];
    var len := Len(s.data);
    assert RequestOk(s, r);
    if h.pos == q.phase.seen {
      var t := Apply(s, CompareExchange(r));
      PositionBound(h, len, |h.history|);
      ReserveKeepsHandle(h, q.size, len, r);
      ReserveKeepsRead(h, q, len, s.closed);
      forall i | i in t.requests
        ensures RequestOk(t, i)
      {
        if i != r {
          assert RequestOk(s, i);
          if s.requests[i].handle == q.handle {
            MoveKeepsRead(h, Reservation(h, q.size, len, r), s.requests[i], len, s.closed);
          }
        }
      }
    } else {
      LoadKeepsRead(h, q, len, s.closed);
      ReadStepKeepsInv(s, r, q.(phase := Loaded(h.pos, |h.history|)));
    }
  }

  lemma BeginKeepsInv(s: State, r: Id, h: Id, size: nat)
    requires Inv(s) && Enabled(s, Begin(r, h, size))
    ensures Inv(Apply(s, Begin(r, h, size)))
  {
    var q := Read(r, h, size, Len(s.data), |s.handles[h].history|, None, Idle);
    assert ReadOk(s.handles[h], q, Len(s.data), s.closed);
    ReadStepKeepsInv(s, r, q);
  }

  lemma WriteKeepsInv(s: State, w: Id)
    requires Inv(s) && Enabled(s, Write(w))
    ensures Inv(Apply(s, Write(w))) && GrownTo(s.data, Apply(s, Write(w)).data)
  {
    var t := Apply(s, Write(w));
    if KindOf(s.writes[w].value) == KindOf(s.data) {
      ExtendGrows(s.data, s.writes[w].value);
    } else {
      GrownToItself(s.data);
    }
    forall h | h in t.handles
      ensures HandleOk(t.handles[h], Len(t.data))
    {
      GrowthKeepsHandle(s.handles[h], Len(s.data), Len(t.data));
    }
  }

  /** What an append does to the log when it gets the lock: its elements come after those there, if the types
      agree, and otherwise nothing changes. */
  lemma WriteAppends(s: State, w: Id)
    requires Enabled(s, Write(w))
    ensures var v := s.writes[w].value;
            if KindOf(v) == KindOf(s.data) then Appended(s.data, v, Apply(s, Write(w)).data) else Apply(s, Write(w)).data == s.data
  {
    if KindOf(s.writes[w].value) == KindOf(s.data) {
      ExtendAppends(s.data, s.writes[w].value, Apply(s, Write(w)).data);
    }
  }

  lemma DropKeepsInv(s: State, r: Id)
    requires Inv(s) && Enabled(s, Drop(r))
    ensures Inv(Apply(s, Drop(r)))
  {
    var t := Apply(s, Drop(r));
    forall i | i in t.requests
      ensures RequestOk(t, i)
    {
      assert RequestOk(s, i);
    }
  }

  lemma CloseKeepsInv(s: State, h: Id)
    requires Inv(s) && Enabled(s, Close(h))
    ensures Inv(Apply(s, Close(h)))
  {
    var t := Apply(s, Close(h));
    forall i | i in t.requests
      ensures RequestOk(t, i)
    {
      assert RequestOk(s, i);
    }
  }

  lemma CheckKeepsInv(s: State, w: Id, h: Id, value: TypedData)
    requires Inv(s) && Enabled(s, CheckOpen(w, h, value))
    ensures Inv(Apply(s, CheckOpen(w, h, value)))
  {
    var t := Apply(s, CheckOpen(w, h, value));
    forall i | i in t.requests
      ensures RequestOk(t, i)
    {
      assert RequestOk(s, i);
    }
  }

  lemma StepKeepsInv(s: State, a: Action)
    requires Inv(s) && Enabled(s, a)
    ensures Inv(Apply(s, a))
  {
    match a
    case Clone(of, id) => CloneKeepsInv(s, of, id);
    case Begin(r, h, size) => BeginKeepsInv(s, r, h, size);
    case Load(r) =>
      assert RequestOk(s, r);
      LoadKeepsRead(s.handles[s.requests[r].handle], s.requests[r], Len(s.data), s.closed);
      ReadStepKeepsInv(s, r, s.requests[r].(phase := Loaded(s.handles[s.requests[r].handle].pos, |s.handles[s.requests[r].handle].history|)));
    case CompareExchange(r) => CompareExchangeKeepsInv(s, r);
    case Decide(r) =>
      assert RequestOk(s, r);
      var q := s.requests[r];
      DecideKeepsRead(s.handles[q.handle], q, Len(s.data), s.closed);
      ReadStepKeepsInv(s, r, Decided(q, q.phase.at, s.handles[q.handle].history[q.phase.at], s.closed));
    case Drop(r) => DropKeepsInv(s, r);
    case CheckOpen(w, h, v) => CheckKeepsInv(s, w, h, v);
    case Write(w) => WriteKeepsInv(s, w);
    case Close(h) => CloseKeepsInv(s, h);
    case StartSeek(h, seek) =>
      if s.handles[h].seek.None? {
        SeekFieldKeepsHandle(s.handles[h], Some(seek), Len(s.data));
        HandleStepKeepsInv(s, h, s.handles[h].(seek := Some(seek)));
      }
    case CompleteSeek(h) =>
      SoughtKeepsHandle(s.handles[h], Len(s.data));
      HandleStepKeepsInv(s, h, Sought(s.handles[h], Len(s.data)));
    case AbandonSeek(h) =>
      SeekFieldKeepsHandle(s.handles[h], None, Len(s.data));
      HandleStepKeepsInv(s, h, s.handles[h].(seek := None));
  }

  // ---------- whole runs ----------

  predicate Possible(s: State, run: seq<Action>)
    decreases |run|
  {
    run == [] || (Enabled(s, run[0]) && Possible(Apply(s, run[0]), run[1..]))
  }

  function After(s: State, run: seq<Action>): State
    requires Possible(s, run)
    decreases |run|
  {
    if run == [] then s else After(Apply(s, run[0]), run[1..])
  }

  lemma RunFrom(s: State, a: Action, rest: seq<Action>)
    requires Enabled(s, a) && Possible(Apply(s, a), rest)
    ensures Possible(s, [a] + rest) && After(s, [a] + rest) == After(Apply(s, a), rest)
  {
    assert ([a] + rest)[1..] == rest;
  }

  lemma {:induction false} RunsJoin(s: State, first: seq<Action>, rest: seq<Action>)
    requires Possible(s, first) && Possible(After(s, first), rest)
    ensures Possible(s, first + rest) && After(s, first + rest) == After(After(s, first), rest)
    decreases |first|
  {
    if first == [] {
      assert first + rest == rest;
    } else {
      RunsJoin(Apply(s, first[0]), first[1..], rest);
      assert (first + rest)[1..] == first[1..] + rest;
    }
  }

  /** No step changes the type of the log or what is already in it, and none opens it again. */
  lemma StepGrows(s: State, a: Action)
    requires Inv(s) && Enabled(s, a)
    ensures GrownTo(s.data, Apply(s, a).data) && (s.closed ==> Apply(s, a).closed)
  {
    GrownToItself(s.data);
    if a.Write? {
      WriteKeepsInv(s, a.write);
    }
  }

  lemma {:induction false} RunKeepsInv(s: State, run: seq<Action>)
    requires Inv(s) && Possible(s, run)
    ensures Inv(After(s, run)) && GrownTo(s.data, After(s, run).data) && (s.closed ==> After(s, run).closed)
    decreases |run|
  {
    if run == [] {
      GrownToItself(s.data);
    } else {
      var t := Apply(s, run[0]);
      StepKeepsInv(s, run[0]);
      StepGrows(s, run[0]);
      RunKeepsInv(t, run[1..]);
      GrownTransitive(s.data, t.data, After(s, run).data);
    }
  }

  /** Every reachable cursor is inside the log. */
  lemma CursorsStayInside(data: TypedData, run: seq<Action>, h: Id)
    requires Len(data) < HALF && Possible(Fresh(data), run) && h in After(Fresh(data), run).handles
    ensures After(Fresh(data), run).handles[h].pos <= Len(After(Fresh(data), run).data)
    ensures KindOf(After(Fresh(data), run).data) == KindOf(data)
  {
    var s := After(Fresh(data), run);
    FreshInv(data);
    RunKeepsInv(Fresh(data), run);
    PositionBound(s.handles[h], Len(s.data), |s.handles[h].history|);
    GrownLen(data, s.data);
  }

  /** The compare-exchange took effect at this step. */
  predicate Exchanges(s: State, a: Action, h: Id)
    requires h in s.handles && Enabled(s, a)
  {
    && a.CompareExchange? && s.requests[a.read].handle == h
    && s.requests[a.read].phase.seen == s.handles[h].pos
  }

  /** A cursor moves only by one atomic reservation of the whole read, at the moment its
      compare-exchange succeeds, or by a seek; every other step of every party leaves it alone. */
  lemma CursorMovesAtomically(s: State, a: Action, h: Id)
    requires Inv(s) && Enabled(s, a) && h in s.handles
    ensures h in Apply(s, a).handles
    ensures Exchanges(s, a, h) ==>
              Apply(s, a).handles[h] == Reserve(s.handles[h], s.requests[a.read].size, Len(s.data), a.read)
    ensures !Exchanges(s, a, h) && a != CompleteSeek(h) ==>
              Apply(s, a).handles[h] == s.handles[h].(seek := Apply(s, a).handles[h].seek)
  {
    if a.CompareExchange? {
      assert RequestOk(s, a.read);
    }
  }

  /** A compare-exchange that fails means that another one succeeded since the cursor was read. */
  lemma FailureMeansProgress(s: State, r: Id)
    requires Inv(s) && Enabled(s, CompareExchange(r))
    requires s.requests[r].phase.seen != s.handles[s.requests[r].handle].pos
    ensures s.requests[r].phase.at < |s.handles[s.requests[r].handle].history|
    ensures s.handles[s.requests[r].handle].history[s.requests[r].phase.at].Window?
  {
    assert RequestOk(s, r);
  }

  // ---------- windows ----------

  /** The events from `i` up to `j` are reads whose addition did not wrap. */
  predicate Forward(h: Handle, i: nat, j: nat)
    requires i <= j <= |h.history|
  {
    forall k :: i <= k < j ==> h.history[k].Window? && h.history[k].from + h.history[k].size < WORD
  }

  predicate Covers(h: Handle, k: int, x: nat) {
    0 <= k < |h.history| && h.history[k].from <= x < h.history[k].to
  }

  lemma {:induction false} WindowsInOrder(h: Handle, len: nat, i: nat, j: nat)
    requires HandleOk(h, len) && len < HALF && i <= j <= |h.history| && Forward(h, i, j)
    ensures Position(h, i) <= Position(h, j)
    decreases j - i
  {
    if i < j {
      WindowsInOrder(h, len, i, j - 1);
      assert EventOk(h, j - 1, len);
      var e := h.history[j - 1];
      ReadsForwardExactly(e.from, e.size, e.len);
    }
  }

  /** Between seeks, the windows of a cursor do not overlap. */
  lemma WindowsDisjoint(h: Handle, len: nat, i: nat, j: nat, a: nat, b: nat, x: nat)
    requires HandleOk(h, len) && len < HALF && i <= j <= |h.history| && Forward(h, i, j)
    requires i <= a < j && i <= b < j && Covers(h, a, x) && Covers(h, b, x)
    ensures a == b
  {
    assert EventOk(h, a, len) && EventOk(h, b, len);
    if a < b {
      WindowsInOrder(h, len, a + 1, b);
    } else if b < a {
      WindowsInOrder(h, len, b + 1, a);
    }
  }

  /** Together they are all the cursor passed over. */
  lemma {:induction false} WindowsCover(h: Handle, len: nat, i: nat, j: nat, x: nat) returns (k: nat)
    requires HandleOk(h, len) && len < HALF && i <= j <= |h.history| && Forward(h, i, j)
    requires Position(h, i) <= x < Position(h, j)
    ensures i <= k < j && Covers(h, k, x)
    decreases j - i
  {
    assert EventOk(h, j - 1, len);
    if h.history[j - 1].from <= x {
      k := j - 1;
    } else {
      k := WindowsCover(h, len, i, j - 1, x);
    }
  }

  /** Over any stretch of a cursor's history without a seek, each position it advanced past is in
      exactly one of the windows reserved there, and no window reaches outside the advance. */
  lemma WindowsTile(h: Handle, len: nat, i: nat, j: nat, x: nat)
    requires HandleOk(h, len) && len < HALF && i <= j <= |h.history| && Forward(h, i, j)
    ensures (exists k :: i <= k < j && Covers(h, k, x)) <==> Position(h, i) <= x < Position(h, j)
    ensures forall a, b :: i <= a < j && i <= b < j && Covers(h, a, x) && Covers(h, b, x) ==> a == b
  {
    if Position(h, i) <= x < Position(h, j) {
      var k := WindowsCover(h, len, i, j, x);
    }
    if k :| i <= k < j && Covers(h, k, x) {
      assert EventOk(h, k, len);
      WindowsInOrder(h, len, i, k);
      WindowsInOrder(h, len, k + 1, j);
    }
    forall a, b | i <= a < j && i <= b < j && Covers(h, a, x) && Covers(h, b, x)
      ensures a == b
    {
      WindowsDisjoint(h, len, i, j, a, b, x);
    }
  }

  // ---------- what a view shows ----------

  predicate Shows(s: State, r: Id) {
    Inv(s) && r in s.requests && s.requests[r].phase.Viewing?
  }

  function HandleOf(s: State, r: Id): Handle
    requires Inv(s) && r in s.requests
  {
    assert RequestOk(s, r);
    s.handles[s.requests[r].handle]
  }

  /** The window the answer to a read came from. */
  function WindowShown(s: State, r: Id): Event
    requires Shows(s, r)
  {
    assert RequestOk(s, r);
    HandleOf(s, r).history[s.requests[r].phase.at]
  }

  /** Where the view ends; an open end is the end of the log. */
  function ViewEnd(s: State, r: Id): nat
    requires Shows(s, r)
  {
    match s.requests[r].phase.end
    case Some(e) => e
    case None => Len(s.data)
  }

  /** A view shows exactly the window its read reserved: all of the elements asked for, or, if the
      channel is closed, all that were left. */
  lemma ViewShowsItsWindow(s: State, r: Id)
    requires Shows(s, r)
    requires WindowShown(s, r).from + s.requests[r].size < WORD
    ensures WindowShown(s, r).Window? && WindowShown(s, r).reader == r
    ensures s.requests[r].phase.start == WindowShown(s, r).from <= ViewEnd(s, r) == WindowShown(s, r).to <= Len(s.data)
    ensures if s.requests[r].phase.end.Some? then ViewEnd(s, r) - s.requests[r].phase.start == s.requests[r].size
            else s.closed && ViewEnd(s, r) == Len(s.data)
                 && ViewEnd(s, r) - s.requests[r].phase.start < s.requests[r].size
  {
    var q := s.requests[r];
    var h := HandleOf(s, r);
    assert RequestOk(s, r);
    assert EventOk(h, q.phase.at, Len(s.data));
    ReadsForwardExactly(q.phase.start, q.size, q.len);
  }

  /** What a view shows is in the log at the same place ever after. */
  lemma ViewsLast(s: State, r: Id, run: seq<Action>)
    requires Shows(s, r) && WindowShown(s, r).from + s.requests[r].size < WORD
    requires Possible(s, run)
    ensures s.requests[r].phase.start <= ViewEnd(s, r) <= Len(s.data) <= Len(After(s, run).data)
    ensures Slice(After(s, run).data, s.requests[r].phase.start, ViewEnd(s, r))
            == Slice(s.data, s.requests[r].phase.start, ViewEnd(s, r))
  {
    ViewShowsItsWindow(s, r);
    RunKeepsInv(s, run);
    SlicesStay(s.data, After(s, run).data, s.requests[r].phase.start, ViewEnd(s, r));
  }

  /** Two reads of one handle never answer from the same window. */
  lemma ReadsShareNoWindow(s: State, q: Id, r: Id)
    requires Shows(s, q) && Shows(s, r) && q != r && s.requests[q].handle == s.requests[r].handle
    ensures s.requests[q].phase.at != s.requests[r].phase.at
  {
    assert RequestOk(s, q) && RequestOk(s, r);
  }

  // ---------- reads that wait ----------

  /** A poll that answers Pending has moved the cursor to the end, and there it stays: if the read ever
      answers, the channel is closed and the view is empty. What the poll passed over is not delivered. */
  lemma ParkedReadsDeliverNothing(s: State, r: Id)
    requires Inv(s) && r in s.requests && s.requests[r].parked.Some?
    requires s.requests[r].parked.value < |HandleOf(s, r).history|
    requires Forward(HandleOf(s, r), s.requests[r].parked.value, |HandleOf(s, r).history|)
    ensures HandleOf(s, r).pos == Len(s.data)
    ensures s.requests[r].phase.Viewing? ==>
              s.closed && s.requests[r].phase.end.None? && s.requests[r].phase.start == Len(s.data)
  {
    var q := s.requests[r];
    var h := HandleOf(s, r);
    var p := q.parked.value;
    var len := Len(s.data);
    assert RequestOk(s, r);
    assert EventOk(h, p, len);
    ReadsForwardExactly(h.history[p].from, q.size, len);
    assert h.history[p].to == len;
    WindowsInOrder(h, len, p + 1, |h.history|);
    PositionBound(h, len, |h.history|);
    if q.phase.Viewing? {
      WindowsInOrder(h, len, p + 1, q.phase.at);
      assert EventOk(h, q.phase.at, len);
    }
  }

  /** While a request lives, waiting or not, no append takes effect. */
  lemma {:induction false} RequestsHoldTheLog(s: State, r: Id, run: seq<Action>)
    requires Inv(s) && r in s.requests && Possible(s, run) && Drop(r) !in run
    ensures r in After(s, run).requests && After(s, run).data == s.data
    decreases |run|
  {
    if run != [] {
      StepKeepsInv(s, run[0]);
      assert r in Apply(s, run[0]).requests;
      RequestsHoldTheLog(Apply(s, run[0]), r, run[1..]);
    }
  }

  // ---------- runs with reads of any sensible size ----------

  /** Reads of at most 2^63 elements; no log has more. */
  predicate ModestHandle(h: Handle) {
    forall k :: 0 <= k < |h.history| && h.history[k].Window? ==> h.history[k].size <= HALF
  }

  predicate Modest(s: State) {
    && (forall h :: h in s.handles ==> ModestHandle(s.handles[h]))
    && (forall r :: r in s.requests ==> s.requests[r].size <= HALF)
  }

  ghost predicate ModestRun(run: seq<Action>) {
    forall i :: 0 <= i < |run| && run[i].Begin? ==> run[i].size <= HALF
  }

  lemma StepKeepsModest(s: State, a: Action)
    requires Modest(s) && Enabled(s, a) && (a.Begin? ==> a.size <= HALF)
    ensures Modest(Apply(s, a))
  {
    var t := Apply(s, a);
    forall h | h in t.handles
      ensures ModestHandle(t.handles[h])
    {
      if h in s.handles {
        assert ModestHandle(s.handles[h]);
      }
      if a.CompareExchange? {
        assert s.requests[a.read].size <= HALF;
      }
    }
  }

  lemma {:induction false} RunKeepsModest(s: State, run: seq<Action>)
    requires Modest(s) && Possible(s, run) && ModestRun(run)
    ensures Modest(After(s, run))
    decreases |run|
  {
    if run != [] {
      assert run[0].Begin? ==> run[0].size <= HALF;
      StepKeepsModest(s, run[0]);
      assert forall i :: 0 <= i < |run[1..]| ==> run[1..][i] == run[i + 1];
      RunKeepsModest(Apply(s, run[0]), run[1..]);
    }
  }

  lemma ModestGoesForward(h: Handle, len: nat, i: nat, j: nat)
    requires HandleOk(h, len) && len < HALF && ModestHandle(h)
    requires i <= j <= |h.history| && forall k :: i <= k < j ==> h.history[k].Window?
    ensures Forward(h, i, j)
  {
    forall k | i <= k < j
      ensures h.history[k].from + h.history[k].size < WORD
    {
      assert EventOk(h, k, len);
    }
  }

  /** What is reached from a new channel by a run with such reads. */
  ghost predicate Reached(data: TypedData, run: seq<Action>, s: State) {
    Len(data) < HALF && Possible(Fresh(data), run) && ModestRun(run) && s == After(Fresh(data), run)
  }

  lemma ReachedStates(data: TypedData, run: seq<Action>, s: State)
    requires Reached(data, run, s)
    ensures Inv(s) && Modest(s)
  {
    FreshInv(data);
    RunKeepsInv(Fresh(data), run);
    RunKeepsModest(Fresh(data), run);
  }

  /** In every run, over any stretch of a cursor's history without a seek, each position it advanced past was
      reserved by exactly one read, and nothing else was. */
  lemma TilesInEveryRun(data: TypedData, run: seq<Action>, s: State, h: Id, i: nat, j: nat, x: nat)
    requires Reached(data, run, s) && h in s.handles && i <= j <= |s.handles[h].history|
    requires forall k :: i <= k < j ==> s.handles[h].history[k].Window?
    ensures (exists k :: i <= k < j && Covers(s.handles[h], k, x)) <==> Position(s.handles[h], i) <= x < Position(s.handles[h], j)
    ensures forall a, b :: i <= a < j && i <= b < j && Covers(s.handles[h], a, x) && Covers(s.handles[h], b, x) ==> a == b
  {
    ReachedStates(data, run, s);
    ModestGoesForward(s.handles[h], Len(s.data), i, j);
    WindowsTile(s.handles[h], Len(s.data), i, j, x);
  }

  /** In every run, a read that has answered shows exactly its window, now and in every later state; and if
      it had to wait, it shows nothing. */
  lemma AnswersInEveryRun(data: TypedData, run: seq<Action>, s: State, r: Id, later: seq<Action>)
    requires Reached(data, run, s) && r in s.requests && s.requests[r].phase.Viewing? && Possible(s, later)
    ensures Shows(s, r)
    ensures s.requests[r].phase.start == WindowShown(s, r).from <= ViewEnd(s, r) == WindowShown(s, r).to <= Len(s.data) <= Len(After(s, later).data)
    ensures Slice(After(s, later).data, WindowShown(s, r).from, WindowShown(s, r).to) == Slice(s.data, s.requests[r].phase.start, ViewEnd(s, r))
    ensures s.requests[r].parked.Some? ==> s.closed && s.requests[r].phase.start == ViewEnd(s, r) == Len(s.data)
  {
    ReachedStates(data, run, s);
    assert RequestOk(s, r);
    var q := s.requests[r];
    var h := s.handles[q.handle];
    assert EventOk(h, q.phase.at, Len(s.data));
    ViewShowsItsWindow(s, r);
    ViewsLast(s, r, later);
    if q.parked.Some? {
      ModestGoesForward(h, Len(s.data), q.parked.value, |h.history|);
      ParkedReadsDeliverNothing(s, r);
    }
  }

  // ---------- closing ----------

  /** The append would still change the log. */
  predicate Effective(s: State, w: Id) {
    && w in s.writes && KindOf(s.writes[w].value) == KindOf(s.data)
    && 0 < Len(s.writes[w].value) && Len(s.data) + Len(s.writes[w].value) < HALF
  }

  lemma {:induction false} SettledLogsStay(s: State, run: seq<Action>)
    requires s.closed && Possible(s, run) && forall w :: !Effective(s, w)
    ensures After(s, run).data == s.data
    decreases |run|
  {
    if run != [] {
      var t := Apply(s, run[0]);
      if run[0].Write? && KindOf(s.writes[run[0].write].value) == KindOf(s.data) {
        assert !Effective(s, run[0].write);
        ExtendGrows(s.data, s.writes[run[0].write].value);
      }
      assert t.data == s.data && t.closed;
      forall w
        ensures !Effective(t, w)
      {
        assert !Effective(s, w);
      }
      SettledLogsStay(t, run[1..]);
    }
  }

  predicate Grows(s: State, run: seq<Action>) {
    Possible(s, run) && After(s, run).data != s.data
  }

  /** Nothing happened but that the read got on. */
  predicate OnlyReads(s: State, t: State) {
    t.data == s.data && t.closed == s.closed && t.writes == s.writes
  }

  /** The step after which a request is nearer to its end. */
  function Onward(s: State, r: Id): Action
    requires r in s.requests
  {
    match s.requests[r].phase
    case Idle => Drop(r)
    case Loaded(_, _) => CompareExchange(r)
    case Reserved(_) => Decide(r)
    case Viewing(_, _, _) => Drop(r)
  }

  function Remaining(s: State, r: Id): nat
    requires r in s.requests && s.requests[r].handle in s.handles
  {
    match s.requests[r].phase
    case Idle => 1
    case Loaded(seen, _) => if seen == s.handles[s.requests[r].handle].pos then 3 else 4
    case Reserved(_) => 2
    case Viewing(_, _, _) => 1
  }

  lemma OnwardStep(s: State, r: Id)
    requires Inv(s) && r in s.requests
    ensures Enabled(s, Onward(s, r)) && OnlyReads(s, Apply(s, Onward(s, r)))
    ensures r in Apply(s, Onward(s, r)).requests ==>
              Apply(s, Onward(s, r)).requests.Keys == s.requests.Keys
              && s.requests[r].handle in s.handles && Apply(s, Onward(s, r)).requests[r].handle in Apply(s, Onward(s, r)).handles
              && Remaining(Apply(s, Onward(s, r)), r) < Remaining(s, r)
    ensures r !in Apply(s, Onward(s, r)).requests ==> Apply(s, Onward(s, r)).requests.Keys == s.requests.Keys - {r}
  {
    assert RequestOk(s, r);
  }

  /** A request can be brought to its end. */
  lemma {:induction false} RequestEnds(s: State, r: Id) returns (run: seq<Action>)
    requires Inv(s) && r in s.requests && s.requests[r].handle in s.handles
    ensures Possible(s, run) && OnlyReads(s, After(s, run))
    ensures After(s, run).requests.Keys == s.requests.Keys - {r}
    decreases Remaining(s, r)
  {
    var a := Onward(s, r);
    OnwardStep(s, r);
    var t := Apply(s, a);
    if r in t.requests {
      StepKeepsInv(s, a);
      var rest := RequestEnds(t, r);
      RunFrom(s, a, rest);
      run := [a] + rest;
    } else {
      RunFrom(s, a, []);
      run := [a] + [];
    }
  }

  lemma AnyOf<T>(ids: set<T>) returns (id: T)
    requires ids != {}
    ensures id in ids
  {
    id :| id in ids;
  }

  /** And so can all of them. */
  lemma {:induction false} AllRequestsEnd(s: State) returns (run: seq<Action>)
    requires Inv(s)
    ensures Possible(s, run) && OnlyReads(s, After(s, run)) && After(s, run).requests == map[]
    decreases s.requests.Keys
  {
    run := [];
    if s.requests.Keys != {} {
      var r := AnyOf(s.requests.Keys);
      assert RequestOk(s, r);
      var first := RequestEnds(s, r);
      RunKeepsInv(s, first);
      var rest := AllRequestsEnd(After(s, first));
      RunsJoin(s, first, rest);
      run := first + rest;
    } else {
      assert s.requests == map[];
    }
  }

  lemma WaitingAppendGrows(s: State, w: Id) returns (run: seq<Action>)
    requires Inv(s) && Effective(s, w)
    ensures Grows(s, run)
  {
    var first := AllRequestsEnd(s);
    var t := After(s, first);
    ExtendGrows(t.data, t.writes[w].value);
    RunFrom(t, Write(w), []);
    assert [Write(w)] + [] == [Write(w)];
    RunsJoin(s, first, [Write(w)]);
    run := first + [Write(w)];
  }

  /** An append looks at the closed flag before it takes the lock. So a closed log can grow exactly if an
      append that found it open is still waiting. */
  lemma ClosedLogGrowsExactly(s: State)
    requires Inv(s) && s.closed
    ensures (exists run :: Grows(s, run)) <==> exists w :: Effective(s, w)
  {
    if w :| Effective(s, w) {
      var run := WaitingAppendGrows(s, w);
    } else {
      forall run
        ensures !Grows(s, run)
      {
        if Possible(s, run) {
          SettledLogsStay(s, run);
        }
      }
    }
  }

  const OVERTAKEN := [Clone(0, 1), CheckOpen(0, 0, Integers([7])), Close(1)]

  /** A new channel whose append through one handle is overtaken by a close through another: closed and empty,
      then closed and not empty. */
  lemma CloseOvertakesAppend()
    ensures var s := Fresh(Integers([]));
            && Possible(s, OVERTAKEN) && After(s, OVERTAKEN).closed && After(s, OVERTAKEN).data == Integers([])
            && Enabled(After(s, OVERTAKEN), Write(0))
            && Apply(After(s, OVERTAKEN), Write(0)).closed && Apply(After(s, OVERTAKEN), Write(0)).data == Integers([7])
  {
    var s := Fresh(Integers([]));
    var check := CheckOpen(0, 0, Integers([7]));
    var t := Apply(s, Clone(0, 1));
    var u := Apply(t, check);
    assert u.writes == map[0 := Append(0, Integers([7]))];
    RunFrom(u, Close(1), []);
    RunFrom(t, check, [Close(1)] + []);
    RunFrom(s, Clone(0, 1), [check] + ([Close(1)] + []));
    assert [Clone(0, 1)] + ([check] + ([Close(1)] + [])) == OVERTAKEN;
  }

  ghost predicate NoClone(run: seq<Action>) {
    forall i :: 0 <= i < |run| ==> !run[i].Clone?
  }

  /** All appends come through the one handle, and none waits once the channel is closed. */
  predicate OneHandle(s: State) {
    && s.handles.Keys == {0}
    && (forall w :: w in s.writes ==> s.writes[w].handle == 0)
    && (s.closed ==> s.writes == map[])
  }

  lemma {:induction false} StaysOneHandle(s: State, run: seq<Action>)
    requires Inv(s) && OneHandle(s) && Possible(s, run) && NoClone(run)
    ensures OneHandle(After(s, run))
    decreases |run|
  {
    if run != [] {
      StepKeepsInv(s, run[0]);
      OneHandleStep(s, run[0]);
      assert forall i :: 0 <= i < |run[1..]| ==> run[1..][i] == run[i + 1];
      StaysOneHandle(Apply(s, run[0]), run[1..]);
    }
  }

  lemma OneHandleStep(s: State, a: Action)
    requires Inv(s) && OneHandle(s) && Enabled(s, a) && !a.Clone?
    ensures OneHandle(Apply(s, a))
  {
    if a.CompareExchange? {
      assert RequestOk(s, a.read);
    }
    if a.Close? {
      assert forall w :: w !in s.writes;
    }
  }

  /** It takes a second handle: while there is only one, what a closed channel holds is final. */
  lemma OneHandleClosesForGood(data: TypedData, run: seq<Action>, later: seq<Action>)
    requires Len(data) < HALF && Possible(Fresh(data), run) && NoClone(run)
    requires After(Fresh(data), run).closed && Possible(After(Fresh(data), run), later)
    ensures After(After(Fresh(data), run), later).data == After(Fresh(data), run).data
  {
    FreshInv(data);
    StaysOneHandle(Fresh(data), run);
    SettledLogsStay(After(Fresh(data), run), later);
  }

  function OnePoll(r: Id): seq<Action> {
    [Load(r), CompareExchange(r), Decide(r)]
  }

  /** A poll of the only read there is. */
  lemma PollAlone(s: State, r: Id, h: Handle, q: Read)
    requires q.handle in s.handles && s.handles[q.handle] == h && s.requests == map[r := q] && q.phase.Idle?
    ensures Possible(s, OnePoll(r))
    ensures var moved := Reserve(h, q.size, q.len, r);
            After(s, OnePoll(r)) == s.(handles := s.handles[q.handle := moved],
                                       requests := map[r := Decided(q, |h.history|, Reservation(h, q.size, q.len, r), s.closed)])
  {
    var s1 := Apply(s, Load(r));
    var s2 := Apply(s1, CompareExchange(r));
    var moved := Reserve(h, q.size, q.len, r);
    assert s2.handles == s.handles[q.handle := moved];
    assert s2.requests == map[r := q.(phase := Reserved(|h.history|))];
    var s3 := Apply(s2, Decide(r));
    RunFrom(s2, Decide(r), []);
    RunFrom(s1, CompareExchange(r), [Decide(r)] + []);
    RunFrom(s, Load(r), [CompareExchange(r)] + ([Decide(r)] + []));
    assert [Load(r)] + ([CompareExchange(r)] + ([Decide(r)] + [])) == OnePoll(r);
    assert Decided(q.(phase := Reserved(|h.history|)), |h.history|, Reservation(h, q.size, q.len, r), s.closed)
           == Decided(q, |h.history|, Reservation(h, q.size, q.len, r), s.closed);
    assert s3.requests == map[r := Decided(q, |h.history|, Reservation(h, q.size, q.len, r), s.closed)];
  }

  const WAITS := [Clone(0, 1), Begin(0, 0, 2)] + OnePoll(0)

  /** A read of two elements from a log of one waits, having passed over the one. */
  lemma ReadWaits()
    ensures Possible(Fresh(Integers([7])), WAITS)
    ensures var e := Window(0, 1, 2, 1, 0);
            After(Fresh(Integers([7])), WAITS)
            == State(Integers([7]), false, map[0 := Handle(0, 1, None, [e]), 1 := Handle(0, 0, None, [])],
                     map[0 := Read(0, 0, 2, 1, 0, Some(0), Idle)], map[])
  {
    var s := Fresh(Integers([7]));
    var h := Handle(0, 0, None, []);
    var q := Read(0, 0, 2, 1, 0, None, Idle);
    var t := Apply(s, Clone(0, 1));
    assert t.handles == map[0 := h, 1 := h];
    var u := Apply(t, Begin(0, 0, 2));
    assert u.requests == map[0 := q] && u.handles == map[0 := h, 1 := h];
    PollAlone(u, 0, h, q);
    assert [] + [Window(0, 1, 2, 1, 0)] == [Window(0, 1, 2, 1, 0)];
    RunFrom(t, Begin(0, 0, 2), OnePoll(0));
    RunFrom(s, Clone(0, 1), [Begin(0, 0, 2)] + OnePoll(0));
    assert [Clone(0, 1)] + ([Begin(0, 0, 2)] + OnePoll(0)) == WAITS;
  }

  /** When the channel is closed through the other handle, it answers with nothing: the element is never
      shown. */
  lemma WaitingReadSkips()
    ensures var run := WAITS + ([Close(1)] + OnePoll(0));
            && Possible(Fresh(Integers([7])), run)
            && var s := After(Fresh(Integers([7])), run);
            && s.data == Integers([7]) && 0 in s.requests && s.requests[0].parked == Some(0)
            && s.requests[0].phase == Viewing(1, 1, None)
  {
    var s := Fresh(Integers([7]));
    ReadWaits();
    var t := After(s, WAITS);
    var u := Apply(t, Close(1));
    var h := Handle(0, 1, None, [Window(0, 1, 2, 1, 0)]);
    PollAlone(u, 0, h, Read(0, 0, 2, 1, 0, Some(0), Idle));
    RunFrom(t, Close(1), OnePoll(0));
    RunsJoin(s, WAITS, [Close(1)] + OnePoll(0));
  }

  // ---------- one poll at a time ----------

  /** A request keeps its handle's waker locked until it answers. */
  predicate HoldsWaker(s: State, r: Id, h: Id) {
    r in s.requests && s.requests[r].handle == h && !s.requests[r].phase.Viewing?
  }

  ghost predicate TakesWaker(s: State, a: Action) {
    a.Begin? ==> forall r :: !HoldsWaker(s, r, a.handle)
  }

  ghost predicate Exclusive(s: State) {
    && (forall q, r :: q in s.requests && HoldsWaker(s, q, s.requests[q].handle) && HoldsWaker(s, r, s.requests[q].handle) ==> q == r)
    && (forall r :: r in s.requests && s.requests[r].phase.Loaded? && s.requests[r].handle in s.handles ==>
                      s.requests[r].phase.seen == s.handles[s.requests[r].handle].pos)
  }

  /** Because requests take the waker of their handle, no compare-exchange of a read ever fails. */
  lemma ExchangesSucceed(s: State, a: Action)
    requires Inv(s) && Exclusive(s) && Enabled(s, a) && TakesWaker(s, a)
    ensures Exclusive(Apply(s, a))
    ensures a.CompareExchange? ==> Exchanges(s, a, s.requests[a.read].handle)
  {
    var t := Apply(s, a);
    forall q, r | q in t.requests && HoldsWaker(t, q, t.requests[q].handle) && HoldsWaker(t, r, t.requests[q].handle)
      ensures q == r
    {
      if !a.Begin? {
        assert HoldsWaker(s, q, s.requests[q].handle) && HoldsWaker(s, r, s.requests[q].handle);
      } else if q != a.read && r != a.read {
        assert HoldsWaker(s, q, s.requests[q].handle) && HoldsWaker(s, r, s.requests[q].handle);
      } else if q != r {
        assert HoldsWaker(s, if q == a.read then r else q, a.handle);
      }
    }
    forall r | r in t.requests && t.requests[r].phase.Loaded? && t.requests[r].handle in t.handles
      ensures t.requests[r].phase.seen == t.handles[t.requests[r].handle].pos
    {
      if a.CompareExchange? && r != a.read && s.requests[r].handle == s.requests[a.read].handle {
        assert HoldsWaker(s, r, s.requests[a.read].handle) && HoldsWaker(s, a.read, s.requests[a.read].handle);
        assert false;
      } else if a.Load? && r == a.read {
      } else {
        assert RequestOk(s, r);
      }
    }
  }

  /** Every request of the run takes the waker of its handle. */
  ghost predicate TakesWakers(s: State, run: seq<Action>)
    requires Possible(s, run)
    decreases |run|
  {
    run == [] || (TakesWaker(s, run[0]) && TakesWakers(Apply(s, run[0]), run[1..]))
  }

  lemma {:induction false} RunKeepsExclusive(s: State, run: seq<Action>)
    requires Inv(s) && Exclusive(s) && Possible(s, run) && TakesWakers(s, run)
    ensures Exclusive(After(s, run))
    decreases |run|
  {
    if run != [] {
      ExchangesSucceed(s, run[0]);
      StepKeepsInv(s, run[0]);
      RunKeepsExclusive(Apply(s, run[0]), run[1..]);
    }
  }

  /** So in no run from a new channel does a compare-exchange of a read ever fail. */
  lemma NoExchangeEverFails(data: TypedData, run: seq<Action>, r: Id)
    requires Len(data) < HALF && Possible(Fresh(data), run) && TakesWakers(Fresh(data), run)
    requires Enabled(After(Fresh(data), run), CompareExchange(r))
    ensures var s := After(Fresh(data), run);
            Exchanges(s, CompareExchange(r), s.requests[r].handle)
  {
    FreshInv(data);
    RunKeepsInv(Fresh(data), run);
    RunKeepsExclusive(Fresh(data), run);
    ExchangesSucceed(After(Fresh(data), run), CompareExchange(r));
  }

  // ---------- validation ----------

  function Holding(states: map<string, State>): map<string, TypedData> {
    map n | n in states :: states[n].data
  }

  function AllAfter(states: map<string, State>, runs: map<string, seq<Action>>): map<string, State>
    requires runs.Keys == states.Keys && forall n :: n in states ==> Possible(states[n], runs[n])
  {
    map n | n in states :: After(states[n], runs[n])
  }

  /** Whatever happens to the channels of a set, validating it against the same specs finds the same. */
  lemma VerdictSurvives(states: map<string, State>, runs: map<string, seq<Action>>,
                        required: map<string, Channels.Spec>, optional: map<string, Channels.Spec>)
    requires runs.Keys == states.Keys && forall n :: n in states ==> Inv(states[n]) && Possible(states[n], runs[n])
    ensures var before := Channels.DataKinds(Holding(states));
            var after := Channels.DataKinds(Holding(AllAfter(states, runs)));
            && before == after
            && (Validation.Conforms(before, required, optional, Channels.KindMatches)
                <==> Validation.Conforms(after, required, optional, Channels.KindMatches))
  {
    forall n | n in states
      ensures GrownTo(Holding(states)[n], Holding(AllAfter(states, runs))[n])
    {
      RunKeepsInv(states[n], runs[n]);
    }
    Channels.GrowthKeepsKinds(Holding(states), Holding(AllAfter(states, runs)));
  }
}

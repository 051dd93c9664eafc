/** Requests for remote access: asking, approving, cancelling and expiry. */
module RemoteAccess {
  import opened ExpireMap
  import opened Results
  import Waiting

  type Uuid = int

  const SECOND := 1_000_000_000
  const WORD := 0x1_0000_0000_0000_0000
  const HALF := 0x8000_0000_0000_0000

  // ---------- clocks ----------

  /** `Instant::now() + Duration::from_secs(expires_at - now)`, both clocks in nanoseconds: the
      subtraction is of 64-bit words, and an instant holds 63 bits of seconds. */
  function ExpiryInstant(expiresAt: nat, instant: nat, wall: nat): Option<Instant> {
    var seconds := (expiresAt - wall / SECOND) % WORD;
    var due := instant + seconds * SECOND;
    if due < HALF * SECOND then Some(due) else None
  }

  /** The time on the monotonic clock at which `expiresAt` has come, when the wall clock is ahead by `epoch`. */
  function Deadline(expiresAt: nat, epoch: int): int {
    expiresAt * SECOND - epoch
  }

  /** There is a due time exactly if the request has not expired and the time can be represented. */
  lemma DueExactly(expiresAt: nat, instant: nat, wall: nat)
    requires expiresAt < WORD && wall / SECOND < HALF
    ensures ExpiryInstant(expiresAt, instant, wall).Some?
            <==> wall / 1_000_000_000 <= expiresAt
                 && instant + (expiresAt - wall / 1_000_000_000) * 1_000_000_000 < 0x8000_0000_0000_0000 * 1_000_000_000
  {
    var now := wall / SECOND;
    if expiresAt < now {
      assert (expiresAt - now) % WORD == expiresAt - now + WORD;
    }
  }

  /** The due time misses the deadline by less than a second, and it is not after the deadline exactly if
      the first clock was read no later than the start of the second in which the other was. */
  lemma DueWithinASecond(expiresAt: nat, instant: nat, wall: nat, epoch: int)
    requires expiresAt < WORD && wall / SECOND < HALF && instant + epoch <= wall
    requires ExpiryInstant(expiresAt, instant, wall).Some?
    ensures var due := ExpiryInstant(expiresAt, instant, wall).value;
            && due < Deadline(expiresAt, epoch) + SECOND
            && (due <= Deadline(expiresAt, epoch) <==> instant + epoch <= wall - wall % SECOND)
  {
    DueExactly(expiresAt, instant, wall);
    var now := wall / SECOND;
    assert (expiresAt - now) % WORD == expiresAt - now;
    assert (expiresAt - now) * SECOND == expiresAt * SECOND - now * SECOND;
    assert now * SECOND == wall - wall % SECOND;
  }

  // ---------- the service ----------

  class WaitState {
    var approved: bool
    var waker: Option<int>

    constructor ()
      ensures !approved && waker == None
    {
      approved := false;
      waker := None;
    }

    /** The flag and the slot are those of a state of the waiting protocol. */
    ghost predicate Shows(s: Waiting.State)
      reads this
    {
      s.approved == approved && s.slot == waker
    }

    /** A waiter's poll: done, or parked with its waker in the slot. */
    method Poll(waiter: int) returns (ready: bool)
      modifies this
      ensures ready == approved == old(approved)
      ensures waker == if ready then old(waker) else Some(waiter)
      ensures forall s :: old(Shows(s)) && Waiting.Enabled(s, Waiting.Poll(waiter)) ==>
                Shows(Waiting.Apply(s, Waiting.Poll(waiter)))
                && (ready <==> Waiting.Apply(s, Waiting.Poll(waiter)).waiters[waiter] == Waiting.Done)
    {
      ready := approved;
      if !ready {
        waker := Some(waiter);
      }
    }

    /** Sets the flag and takes the waker to wake. */
    method Approve() returns (woken: Option<int>)
      modifies this
      ensures approved && waker == None && woken == old(waker)
      ensures forall s :: old(Shows(s)) && Waiting.Enabled(s, Waiting.Approve) ==> Shows(Waiting.Apply(s, Waiting.Approve))
      ensures forall s, w :: old(Shows(s)) && Waiting.Enabled(s, Waiting.Approve) && Waiting.IsParked(s, w) ==>
                (woken == Some(w) <==> Waiting.Apply(s, Waiting.Approve).waiters[w] == Waiting.Woken)
    {
      approved := true;
      woken := waker;
      waker := None;
    }
  }

  datatype PendingAccessRequest = PendingAccessRequest(subject: string, expiresAt: nat, approved: bool, waitState: WaitState)

  datatype RemoteAccessRequest = RemoteAccessRequest(id: Uuid, subject: string, expiresAt: nat, approved: bool)

  datatype Status = NoId | InvalidUuid | NotFound | NoExpiry | PermissionDenied

  function Shown(id: Uuid, r: PendingAccessRequest): RemoteAccessRequest {
    RemoteAccessRequest(id, r.subject, r.expiresAt, r.approved)
  }

  function ParseId(parse: string -> Option<Uuid>, id: string): Result<Uuid, Status> {
    match parse(id)
    case None => Err(InvalidUuid)
    case Some(uuid) => Ok(uuid)
  }

  class AuthService {
    const accessList: ExpireMap<string, ()>
    const pending: ExpireMap<Uuid, PendingAccessRequest>
    const parse: string -> Option<Uuid>

    ghost predicate Valid()
      reads this, accessList, pending
    {
      accessList.Valid() && pending.Valid()
    }

    constructor (allowed: map<string, ()>, parse: string -> Option<Uuid>)
      ensures Valid() && fresh(accessList) && fresh(pending) && this.parse == parse
      ensures accessList.map_ == allowed && pending.map_ == map[]
    {
      this.accessList := new ExpireMap<string, ()>(allowed);
      this.pending := new ExpireMap<Uuid, PendingAccessRequest>(map[]);
      this.parse := parse;
    }

    /** The end of `authenticate`, for a token with this subject and expiry; `id` is a new uuid. */
    method RequestAccess(subject: string, expiresAt: nat, create: bool, id: Uuid, instant: nat, wall: nat)
      returns (r: Result<Option<Uuid>, Status>)
      requires Valid() && id !in pending.map_
      modifies pending
      ensures Valid()
      ensures r == if subject in accessList.map_ then Ok(None)
                   else if !create then Err(PermissionDenied)
                   else if ExpiryInstant(expiresAt, instant, wall).None? then Err(NoExpiry)
                   else Ok(Some(id))
      ensures if r.Ok? && r.value.Some? then
                && pending.map_.Keys == old(pending.map_.Keys) + {id}
                && pending.map_ - {id} == old(pending.map_)
                && Shown(id, pending.map_[id]) == RemoteAccessRequest(id, subject, expiresAt, false)
                && fresh(pending.map_[id].waitState) && !pending.map_[id].waitState.approved
                && pending.timers == old(pending.timers) + multiset{Timer(id, ExpiryInstant(expiresAt, instant, wall).value)}
              else pending.map_ == old(pending.map_) && pending.timers == old(pending.timers)
    {
      var known := accessList.Contains(subject);
      if known {
        return Ok(None);
      }
      if !create {
        return Err(PermissionDenied);
      }
      var due := ExpiryInstant(expiresAt, instant, wall);
      if due.None? {
        return Err(NoExpiry);
      }
      var w := new WaitState();
      pending.Insert(id, PendingAccessRequest(subject, expiresAt, false, w), due);
      r := Ok(Some(id));
    }

    /** Whatever `approved` says, the subject of a pending request gets access until about `expiresAt` and
        one waiter is woken. A request that has expired is only marked. */
    method Approve(id: Option<string>, approved: bool, instant: nat, wall: nat)
      returns (r: Result<RemoteAccessRequest, Status>, woken: Option<int>)
      requires Valid()
      modifies accessList, pending, set k | k in pending.map_ :: pending.map_[k].waitState
      ensures Valid()
      ensures pending.timers == old(pending.timers) && pending.map_.Keys == old(pending.map_.Keys)
      ensures match Found(parse, id, old(pending.map_))
              case Err(e) =>
                && r == Err(e) && woken == None
                && pending.map_ == old(pending.map_) && accessList.map_ == old(accessList.map_)
                && accessList.timers == old(accessList.timers)
              case Ok(uuid) =>
                var req := old(pending.map_)[uuid];
                var due := ExpiryInstant(req.expiresAt, instant, wall);
                && pending.map_ == old(pending.map_)[uuid := req.(approved := approved)]
                && (if due.None? then
                      && r == Err(NoExpiry) && woken == None
                      && accessList.map_ == old(accessList.map_) && accessList.timers == old(accessList.timers)
                      && req.waitState.approved == old(req.waitState.approved)
                    else
                      && r == Ok(RemoteAccessRequest(uuid, req.subject, req.expiresAt, approved))
                      && woken == old(req.waitState.waker)
                      && accessList.map_ == old(accessList.map_)[req.subject := ()]
                      && accessList.timers == old(accessList.timers) + multiset{Timer(req.subject, due.value)}
                      && req.waitState.approved)
    {
      woken := None;
      if id.None? {
        return Err(NoId), None;
      }
      var uuid := ParseId(parse, id.value);
      if uuid.Err? {
        return Err(uuid.error), None;
      }
      if uuid.value !in pending.map_ {
        return Err(NotFound), None;
      }
      var req := pending.map_[uuid.value];
      pending.map_ := pending.map_[uuid.value := req.(approved := approved)];
      var due := ExpiryInstant(req.expiresAt, instant, wall);
      if due.None? {
        return Err(NoExpiry), None;
      }
      accessList.Insert(req.subject, (), due);
      woken := req.waitState.Approve();
      r := Ok(Shown(uuid.value, req.(approved := approved)));
    }

    /** Removes the request; who waits for it is not told. */
    method Cancel(id: string) returns (r: Result<RemoteAccessRequest, Status>)
      requires Valid()
      modifies pending
      ensures Valid()
      ensures match Found(parse, Some(id), old(pending.map_))
              case Err(e) => r == Err(e) && pending.map_ == old(pending.map_)
              case Ok(uuid) =>
                var req := old(pending.map_)[uuid];
                && r == Ok(RemoteAccessRequest(uuid, req.subject, req.expiresAt, req.approved))
                && pending.map_ == old(pending.map_) - {uuid}
    {
      var uuid := ParseId(parse, id);
      if uuid.Err? {
        return Err(uuid.error);
      }
      var removed := pending.Remove(uuid.value);
      match removed
      case None => r := Err(NotFound);
      case Some(req) => r := Ok(Shown(uuid.value, req));
    }

    /** What a waiter is waiting on. */
    method Wait(id: string) returns (r: Result<WaitState, Status>)
      ensures match Found(parse, Some(id), pending.map_)
              case Err(e) => r == Err(e)
              case Ok(uuid) => r == Ok(pending.map_[uuid].waitState)
    {
      var uuid := ParseId(parse, id);
      if uuid.Err? {
        return Err(uuid.error);
      }
      r := if uuid.value in pending.map_ then Ok(pending.map_[uuid.value].waitState) else Err(NotFound);
    }
  }

  /** The pending request an id names. */
  function Found(parse: string -> Option<Uuid>, id: Option<string>, pending: map<Uuid, PendingAccessRequest>): (r: Result<Uuid, Status>)
    ensures r.Ok? ==> id.Some? && parse(id.value) == Some(r.value) && r.value in pending
    ensures r == Err(NoId) <==> id.None?
    ensures r == Err(InvalidUuid) <==> id.Some? && parse(id.value).None?
    ensures r == Err(NotFound) <==> id.Some? && parse(id.value).Some? && parse(id.value).value !in pending
  {
    match id
    case None => Err(NoId)
    case Some(text) =>
      match ParseId(parse, text)
      case Err(e) => Err(e)
      case Ok(uuid) => if uuid in pending then Ok(uuid) else Err(NotFound)
  }

  /** An access-list entry that an approval adds, and no other insert or removal touches, is gone once the
      timers due within a second of the request's deadline have fired. */
  lemma ApprovalExpires(access: Timed<string, ()>, subject: string, expiresAt: nat, instant: nat, wall: nat, epoch: int,
                        due: Instant, run: seq<Step<string, ()>>)
    requires Inv(access) && expiresAt < WORD && wall / SECOND < HALF && instant + epoch <= wall
    requires ExpiryInstant(expiresAt, instant, wall) == Some(due)
    requires var granted := Apply(access, Put(subject, (), Some(due)));
             && Possible(granted, run) && Untouched(run, subject)
             && SettledBy(After(granted, run), Deadline(expiresAt, epoch) + SECOND)
    ensures subject !in After(Apply(access, Put(subject, (), Some(due))), run).entries
  {
    DueWithinASecond(expiresAt, instant, wall, epoch);
    InsertedExpires(access, subject, (), due, run);
  }
}

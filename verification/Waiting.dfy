/** Those who wait for one access request to be approved. They share a flag and a slot for one waker; a
poll and an approval each hold the mutex, and may come in any order.
*/
module Waiting {
  import opened Results

  type Waiter = int

  datatype Status = Unpolled | Parked | Woken | Done

  /** `present` while the request can still be approved or cancelled. */
  datatype State = State(present: bool, approved: bool, slot: Option<Waiter>, waiters: map<Waiter, Status>, approvals: nat)

  datatype Step = Join(waiter: Waiter) | Poll(waiter: Waiter) | Leave(waiter: Waiter) | Approve | Remove

  const START := State(true, false, None, map[], 0)

  predicate Enabled(s: State, step: Step) {
    match step
    case Join(w) => s.present && w !in s.waiters
    case Poll(w) => w in s.waiters && !s.waiters[w].Done?
    case Leave(w) => w in s.waiters
    case Approve => s.present
    case Remove => s.present
  }

  function Apply(s: State, step: Step): State
    requires Enabled(s, step)
  {
    match step
    case Join(w) => s.(waiters := s.waiters[w := Unpolled])
    case Poll(w) =>
      if s.approved then s.(waiters := s.waiters[w := Done])
      else s.(slot := Some(w), waiters := s.waiters[w := Parked])
    case Leave(w) => s.(waiters := s.waiters - {w})
    case Approve =>
      s.(approved := true, approvals := s.approvals + 1, slot := None,
         waiters := if s.slot.Some? && s.slot.value in s.waiters then Wake(s.waiters, s.slot.value) else s.waiters)
    case Remove => s.(present := false)
  }

  function Wake(waiters: map<Waiter, Status>, w: Waiter): map<Waiter, Status>
    requires w in waiters
  {
    if waiters[w].Parked? then waiters[w := Woken] else waiters
  }

  /** What each step needs and does: anybody new joins while the request is there, a waiter who polls is done or
      parked with the slot its own, one who leaves is gone, and removing only removes. */
  lemma WaitersAct(s: State, w: Waiter)
    ensures Enabled(s, Join(w)) <==> s.present && w !in s.waiters
    ensures Enabled(s, Poll(w)) <==> w in s.waiters && s.waiters[w] != Done
    ensures Enabled(s, Leave(w)) <==> w in s.waiters
    ensures Enabled(s, Approve) <==> s.present
    ensures Enabled(s, Remove) <==> s.present
    ensures Enabled(s, Join(w)) ==> Apply(s, Join(w)) == s.(waiters := s.waiters[w := Unpolled])
    ensures Enabled(s, Poll(w)) ==>
              Apply(s, Poll(w)).waiters == s.waiters[w := if s.approved then Done else Parked]
              && Apply(s, Poll(w)).slot == (if s.approved then s.slot else Some(w)) && Apply(s, Poll(w)).approved == s.approved
    ensures Enabled(s, Leave(w)) ==> Apply(s, Leave(w)) == s.(waiters := s.waiters - {w})
    ensures s.present ==> Apply(s, Approve).approved && Apply(s, Approve).slot.None? && Apply(s, Approve).present
    ensures s.present ==> Apply(s, Remove) == s.(present := false)
  {
  }

  predicate Possible(s: State, run: seq<Step>)
    decreases |run|
  {
    run == [] || (Enabled(s, run[0]) && Possible(Apply(s, run[0]), run[1..]))
  }

  function After(s: State, run: seq<Step>): State
    requires Possible(s, run)
    decreases |run|
  {
    if run == [] then s else After(Apply(s, run[0]), run[1..])
  }

  lemma RunFrom(s: State, step: Step, rest: seq<Step>)
    requires Enabled(s, step) && Possible(Apply(s, step), rest)
    ensures Possible(s, [step] + rest) && After(s, [step] + rest) == After(Apply(s, step), rest)
  {
    assert ([step] + rest)[1..] == rest;
  }

  /** The flag says whether an approval has come; then the slot is empty; nobody completes or is woken
      before. */
  ghost predicate Inv(s: State) {
    && (s.approved <==> s.approvals > 0)
    && (s.approved ==> s.slot.None?)
    && (forall w :: w in s.waiters && (s.waiters[w].Done? || s.waiters[w].Woken?) ==> s.approved)
  }

  lemma StepKeepsInv(s: State, step: Step)
    requires Inv(s) && Enabled(s, step)
    ensures Inv(Apply(s, step))
  {
  }

  lemma {:induction false} RunKeepsInv(s: State, run: seq<Step>)
    requires Inv(s) && Possible(s, run)
    ensures Inv(After(s, run))
    decreases |run|
  {
    if run != [] {
      StepKeepsInv(s, run[0]);
      RunKeepsInv(Apply(s, run[0]), run[1..]);
    }
  }

  /** A waiter completes only after an approval. */
  lemma CompletesOnlyWhenApproved(run: seq<Step>, w: Waiter)
    requires Possible(START, run) && w in After(START, run).waiters && After(START, run).waiters[w].Done?
    ensures After(START, run).approvals > 0
  {
    RunKeepsInv(START, run);
  }

  // ---------- lost wakeups ----------

  predicate IsParked(s: State, w: Waiter) {
    w in s.waiters && s.waiters[w].Parked?
  }

  /** Parked although the flag is set: nobody will wake this waiter. */
  predicate Stranded(s: State, w: Waiter) {
    IsParked(s, w) && s.approved
  }

  /** If `w` is parked, the approval will find its waker. */
  predicate Reachable(s: State, w: Waiter) {
    IsParked(s, w) ==> s.slot == Some(w) && !s.approved
  }

  ghost predicate OnlyPolledBy(run: seq<Step>, w: Waiter) {
    forall i :: 0 <= i < |run| && run[i].Poll? ==> run[i].waiter == w
  }

  lemma {:induction false} SoleWaiterReachable(s: State, run: seq<Step>, w: Waiter)
    requires Inv(s) && Reachable(s, w) && Possible(s, run) && OnlyPolledBy(run, w)
    ensures Reachable(After(s, run), w)
    decreases |run|
  {
    if run != [] {
      StepKeepsInv(s, run[0]);
      assert run[0].Poll? ==> run[0].waiter == w;
      assert forall i :: 0 <= i < |run[1..]| ==> run[1..][i] == run[i + 1];
      SoleWaiterReachable(Apply(s, run[0]), run[1..], w);
    }
  }

  /** With one waiter no wakeup is lost, however polls and approvals interleave: while it is parked its
      waker is stored and the flag is not set, so it is never parked once the flag is set. */
  lemma NoLostWakeup(run: seq<Step>, w: Waiter)
    requires Possible(START, run) && OnlyPolledBy(run, w)
    ensures IsParked(After(START, run), w) ==> After(START, run).slot == Some(w) && !After(START, run).approved
    ensures !Stranded(After(START, run), w)
  {
    SoleWaiterReachable(START, run, w);
  }

  /** And one that parks is woken by the approval and completes when it polls again. */
  lemma ParkedCompletes(w: Waiter)
    ensures var run := [Join(w), Poll(w), Approve, Poll(w)];
            Possible(START, run) && After(START, run).waiters == map[w := Done]
  {
    var joined := Apply(START, Join(w));
    var parked := Apply(joined, Poll(w));
    var woken := Apply(parked, Approve);
    assert joined.waiters == map[w := Unpolled] && parked.waiters == map[w := Parked] && woken.waiters == map[w := Woken];
    RunFrom(woken, Poll(w), []);
    RunFrom(parked, Approve, [Poll(w)] + []);
    RunFrom(joined, Poll(w), [Approve] + ([Poll(w)] + []));
    RunFrom(START, Join(w), [Poll(w)] + ([Approve] + ([Poll(w)] + [])));
    assert [Join(w)] + ([Poll(w)] + ([Approve] + ([Poll(w)] + []))) == [Join(w), Poll(w), Approve, Poll(w)];
    assert Apply(woken, Poll(w)).waiters == map[w := Done];
  }

  /** An approval wakes the waiter whose waker is in the slot, the last one to park, and strands all others. */
  lemma ApprovalWakesOne(s: State, w: Waiter)
    requires Inv(s) && s.present && IsParked(s, w)
    ensures Stranded(Apply(s, Approve), w) <==> s.slot != Some(w)
    ensures s.slot == Some(w) ==> Apply(s, Approve).waiters[w].Woken?
  {
  }

  ghost predicate NoJoin(run: seq<Step>) {
    forall i :: 0 <= i < |run| ==> !run[i].Join?
  }

  ghost predicate Strands(s: State, run: seq<Step>, w: Waiter) {
    Possible(s, run) && NoJoin(run) && Stranded(After(s, run), w)
  }

  /** Nobody else waits. */
  ghost predicate Alone(s: State, w: Waiter) {
    forall v :: v in s.waiters ==> v == w
  }

  lemma {:induction false} AloneStaysReachable(s: State, run: seq<Step>, w: Waiter)
    requires Inv(s) && Reachable(s, w) && Possible(s, run) && NoJoin(run) && Alone(s, w)
    ensures Reachable(After(s, run), w)
    decreases |run|
  {
    if run != [] {
      StepKeepsInv(s, run[0]);
      assert !run[0].Join?;
      assert forall i :: 0 <= i < |run[1..]| ==> run[1..][i] == run[i + 1];
      AloneStaysReachable(Apply(s, run[0]), run[1..], w);
    }
  }

  lemma ApproveStrands(s: State, w: Waiter)
    requires Inv(s) && s.present && IsParked(s, w) && s.slot != Some(w)
    ensures Strands(s, [Approve], w)
  {
    RunFrom(s, Approve, []);
    assert [Approve] + [] == [Approve];
  }

  lemma OtherPollStrands(s: State, w: Waiter, v: Waiter)
    requires Inv(s) && s.present && !s.approved && IsParked(s, w) && v in s.waiters && v != w
    ensures Strands(s, [Poll(v), Approve], w)
  {
    var t := Apply(s, Poll(v));
    StepKeepsInv(s, Poll(v));
    ApproveStrands(t, w);
    RunFrom(s, Poll(v), [Approve]);
    assert [Poll(v)] + [Approve] == [Poll(v), Approve];
  }

  /** Exactly when a parked waiter can lose its wakeup without anyone new: another waker is in the slot, or
      another waiter can still put its own there. */
  lemma LosesWakeupExactly(s: State, w: Waiter)
    requires Inv(s) && s.present && !s.approved && IsParked(s, w)
    ensures (exists run :: Strands(s, run, w)) <==> s.slot != Some(w) || !Alone(s, w)
  {
    if s.slot != Some(w) {
      ApproveStrands(s, w);
    } else if !Alone(s, w) {
      var v :| v in s.waiters && v != w;
      OtherPollStrands(s, w, v);
    } else {
      forall run
        ensures !Strands(s, run, w)
      {
        if Possible(s, run) && NoJoin(run) {
          AloneStaysReachable(s, run, w);
        }
      }
    }
  }

  /** Cancelling, or letting the request expire, wakes nobody: whoever waits then waits on. */
  lemma {:induction false} RemovalStrands(s: State, run: seq<Step>, w: Waiter)
    requires Inv(s) && !s.present && !s.approved && Possible(s, run)
    ensures !After(s, run).approved
    ensures w in After(s, run).waiters ==> w in s.waiters && !After(s, run).waiters[w].Done? && !After(s, run).waiters[w].Woken?
    decreases |run|
  {
    if run != [] {
      StepKeepsInv(s, run[0]);
      RemovalStrands(Apply(s, run[0]), run[1..], w);
    }
  }
}

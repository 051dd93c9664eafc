/** The queue of functions to execute. Each request holds the queue's lock while it looks at or changes
it, so requests are atomic and come in any order.
*/
module Execution {
  import opened ChannelData
  import opened Channels
  import opened Listing
  import opened Results
  import opened Streams
  import opened Validation

  type Uuid = int

  datatype Descriptor = Descriptor(required: map<string, Spec>, optional: map<string, Spec>, hasRuntime: bool, body: nat)

  /** `receiver` until somebody has asked for the output. */
  datatype QueuedFunction = QueuedFunction(function_: Descriptor, arguments: map<string, TypedData>, receiver: bool)

  datatype Status = RegistryFailed | FunctionNotFound | InvalidArguments(problems: seq<Problem<TypedData, Spec>>)
                  | InvalidId | NotQueued | NoRuntime | OutputTaken

  /** What clients see happen to an execution id. */
  datatype Event = Queued(id: Uuid) | Started(id: Uuid) | OutputGiven(id: Uuid)

  /** Each thing happens to an id at most once; it is queued first and nothing happens after it is started. */
  ghost predicate Orderly(history: seq<Event>) {
    && NoDup(history)
    && (forall i :: 0 <= i < |history| && !history[i].Queued? ==> Queued(history[i].id) in history[..i])
    && (forall i, j :: 0 <= i < j < |history| && history[i].Started? ==> history[j].id != history[i].id)
  }

  ghost predicate Admissible(history: seq<Event>, e: Event) {
    && e !in history && Started(e.id) !in history
    && (e.Queued? || Queued(e.id) in history)
  }

  lemma OrderlyGrows(history: seq<Event>, e: Event)
    requires Orderly(history) && Admissible(history, e)
    ensures Orderly(history + [e])
  {
    var h := history + [e];
    assert NoDup(h) by {
      forall i, j | 0 <= i < j < |h|
        ensures h[i] != h[j]
      {
        assert h[i] in history;
      }
    }
    forall i | 0 <= i < |h| && !h[i].Queued?
      ensures Queued(h[i].id) in h[..i]
    {
      assert h[..i] == history[..i];
      assert history[..|history|] == history;
    }
    forall i, j | 0 <= i < j < |h| && h[i].Started?
      ensures h[j].id != h[i].id
    {
      assert h[i] in history && h[i] == Started(h[i].id);
    }
  }

  /** The entry's arguments satisfy its function's specs, and it is where the history says. */
  ghost predicate EntryOk(q: QueuedFunction, id: Uuid, history: seq<Event>) {
    && Conforms(q.arguments, q.function_.required, q.function_.optional, TypeMatches)
    && (q.receiver <==> OutputGiven(id) !in history)
  }

  ghost predicate QueueOk(queue: map<Uuid, QueuedFunction>, history: seq<Event>) {
    && (forall id :: id in queue <==> Queued(id) in history && Started(id) !in history)
    && (forall id :: id in queue ==> EntryOk(queue[id], id, history))
  }

  lemma InAfter(history: seq<Event>, e: Event, x: Event)
    ensures x in history + [e] <==> x in history || x == e
  {
  }

  lemma EntryStays(q: QueuedFunction, id: Uuid, history: seq<Event>, e: Event)
    requires EntryOk(q, id, history) && e != OutputGiven(id)
    ensures EntryOk(q, id, history + [e])
  {
    InAfter(history, e, OutputGiven(id));
  }

  lemma QueuedIsAdmissible(history: seq<Event>, id: Uuid)
    requires Orderly(history) && Queued(id) !in history
    ensures Admissible(history, Queued(id)) && OutputGiven(id) !in history
  {
    forall i | 0 <= i < |history| && !history[i].Queued?
      ensures Queued(history[i].id) in history
    {
      assert Queued(history[i].id) in history[..i];
    }
  }

  lemma QueueAfterQueued(queue: map<Uuid, QueuedFunction>, history: seq<Event>, id: Uuid, q: QueuedFunction)
    requires QueueOk(queue, history) && Orderly(history) && Queued(id) !in history && EntryOk(q, id, history)
    ensures QueueOk(queue[id := q], history + [Queued(id)])
  {
    QueuedIsAdmissible(history, id);
    forall other
      ensures other in queue[id := q] <==> Queued(other) in history + [Queued(id)] && Started(other) !in history + [Queued(id)]
      ensures other in queue[id := q] ==> EntryOk(queue[id := q][other], other, history + [Queued(id)])
    {
      InAfter(history, Queued(id), Queued(other));
      InAfter(history, Queued(id), Started(other));
      if other in queue[id := q] {
        EntryStays(queue[id := q][other], other, history, Queued(id));
      }
    }
  }

  lemma QueueAfterStarted(queue: map<Uuid, QueuedFunction>, history: seq<Event>, id: Uuid)
    requires QueueOk(queue, history) && id in queue
    ensures QueueOk(queue - {id}, history + [Started(id)])
  {
    forall other
      ensures other in queue - {id} <==> Queued(other) in history + [Started(id)] && Started(other) !in history + [Started(id)]
      ensures other in queue - {id} ==> EntryOk((queue - {id})[other], other, history + [Started(id)])
    {
      InAfter(history, Started(id), Queued(other));
      InAfter(history, Started(id), Started(other));
      if other in queue - {id} {
        EntryStays(queue[other], other, history, Started(id));
      }
    }
  }

  lemma QueueAfterOutput(queue: map<Uuid, QueuedFunction>, history: seq<Event>, id: Uuid)
    requires QueueOk(queue, history) && id in queue
    ensures QueueOk(queue[id := queue[id].(receiver := false)], history + [OutputGiven(id)])
  {
    var after := queue[id := queue[id].(receiver := false)];
    forall other
      ensures other in after <==> Queued(other) in history + [OutputGiven(id)] && Started(other) !in history + [OutputGiven(id)]
      ensures other in after ==> EntryOk(after[other], other, history + [OutputGiven(id)])
    {
      InAfter(history, OutputGiven(id), Queued(other));
      InAfter(history, OutputGiven(id), Started(other));
      if other in after {
        assert EntryOk(queue[other], other, history);
        InAfter(history, OutputGiven(id), OutputGiven(other));
      }
    }
  }

  class ExecutionService {
    var queue: map<Uuid, QueuedFunction>
    const parse: string -> Option<Uuid>
    ghost var history: seq<Event>

    ghost predicate Valid()
      reads this
    {
      Orderly(history) && QueueOk(queue, history)
    }

    constructor (parse: string -> Option<Uuid>)
      ensures Valid() && this.parse == parse && queue == map[] && history == []
    {
      queue, history := map[], [];
      this.parse := parse;
    }

    /** `found` is the registry's answer to a listing of the versions that match, cut to one; `id` is new. */
    method QueueFunction(found: Result<seq<Descriptor>, Status>, arguments: map<string, TypedData>, id: Uuid)
      returns (r: Result<Uuid, Status>)
      requires Valid() && Queued(id) !in history
      modifies this
      ensures Valid()
      ensures found.Err? ==> r == Err(found.error)
      ensures found.Ok? && found.value == [] ==> r == Err(FunctionNotFound)
      ensures found.Ok? && found.value != [] && r.Err? ==> r.error.InvalidArguments?
      ensures r.Ok? <==> found.Ok? && found.value != []
                         && Conforms(arguments, found.value[0].required, found.value[0].optional, TypeMatches)
      ensures match r
              case Ok(queued) =>
                && queued == id && id !in old(queue)
                && history == old(history) + [Queued(id)]
                && queue == old(queue)[id := QueuedFunction(found.value[0], arguments, true)]
              case Err(e) => queue == old(queue) && history == old(history)
      ensures found.Ok? && r.Err? && r.error.InvalidArguments? ==>
                found.value != []
                && Reports(r.error.problems, arguments, found.value[0].required, found.value[0].optional)
    {
      if found.Err? {
        return Err(found.error);
      }
      if found.value == [] {
        return Err(FunctionNotFound);
      }
      var function_ := found.value[0];
      var args := new Stream(arguments);
      var checked := args.Validate(function_.required, function_.optional);
      if checked.Err? {
        return Err(InvalidArguments(checked.error));
      }
      QueuedIsAdmissible(history, id);
      OrderlyGrows(history, Queued(id));
      QueueAfterQueued(queue, history, id, QueuedFunction(function_, arguments, true));
      history := history + [Queued(id)];
      queue := queue[id := QueuedFunction(function_, arguments, true)];
      r := Ok(id);
    }

    /** Takes the execution out of the queue; the answer is what will be executed. */
    method RunFunction(id: string) returns (r: Result<QueuedFunction, Status>)
      requires Valid()
      modifies this
      ensures Valid()
      ensures match parse(id)
              case None => r == Err(InvalidId) && queue == old(queue) && history == old(history)
              case Some(uuid) =>
                if uuid in old(queue) then
                  && queue == old(queue) - {uuid}
                  && history == old(history) + [Started(uuid)]
                  && r == if old(queue)[uuid].function_.hasRuntime then Ok(old(queue)[uuid]) else Err(NoRuntime)
                else r == Err(NotQueued) && queue == old(queue) && history == old(history)
      ensures r.Ok? ==> Conforms(r.value.arguments, r.value.function_.required, r.value.function_.optional, TypeMatches)
    {
      var uuid := parse(id);
      if uuid.None? {
        return Err(InvalidId);
      }
      if uuid.value !in queue {
        return Err(NotQueued);
      }
      var queued := queue[uuid.value];
      assert EntryOk(queued, uuid.value, history);
      OrderlyGrows(history, Started(uuid.value));
      QueueAfterStarted(queue, history, uuid.value);
      queue := queue - {uuid.value};
      history := history + [Started(uuid.value)];
      if !queued.function_.hasRuntime {
        return Err(NoRuntime);
      }
      r := Ok(queued);
    }

    /** Hands out the output receiver, once, while the execution is queued. */
    method FunctionOutput(id: string) returns (r: Result<(), Status>)
      requires Valid()
      modifies this
      ensures Valid()
      ensures match parse(id)
              case None => r == Err(InvalidId) && queue == old(queue) && history == old(history)
              case Some(uuid) =>
                if uuid !in old(queue) then r == Err(NotQueued) && queue == old(queue) && history == old(history)
                else if !old(queue)[uuid].receiver then r == Err(OutputTaken) && queue == old(queue) && history == old(history)
                else
                  && r == Ok(()) && history == old(history) + [OutputGiven(uuid)]
                  && queue == old(queue)[uuid := old(queue)[uuid].(receiver := false)]
    {
      var uuid := parse(id);
      if uuid.None? {
        return Err(InvalidId);
      }
      if uuid.value !in queue {
        return Err(NotQueued);
      }
      var queued := queue[uuid.value];
      assert EntryOk(queued, uuid.value, history);
      if !queued.receiver {
        return Err(OutputTaken);
      }
      OrderlyGrows(history, OutputGiven(uuid.value));
      QueueAfterOutput(queue, history, uuid.value);
      history := history + [OutputGiven(uuid.value)];
      queue := queue[uuid.value := queued.(receiver := false)];
      r := Ok(());
    }
  }

  /** In every orderly history an id is started at most once, its output is given out at most once, and
      never after it was started. */
  lemma RunsOnce(history: seq<Event>, id: Uuid, i: nat, j: nat)
    requires Orderly(history) && i < |history| && j < |history|
    ensures history[i] == Started(id) && history[j] == Started(id) ==> i == j
    ensures history[i] == OutputGiven(id) && history[j] == OutputGiven(id) ==> i == j
    ensures history[i] == Started(id) && history[j] == OutputGiven(id) ==> j < i
    ensures history[i] == Started(id) && history[j] == Queued(id) ==> j < i
  {
  }
}

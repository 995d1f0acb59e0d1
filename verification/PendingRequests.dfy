/** apps/desktop/src/main/pending-requests.ts: one array queue per command type, searched by id and spliced in place.
    Every operation is proved to be a step of the abstract table. */
module PendingRequests {
  import opened RequestTable

  /** `queue.splice(index, 1)` */
  function Spliced(queue: seq<Call>, index: nat): seq<Call>
    requires index < |queue|
  {
    queue[..index] + queue[index + 1..]
  }

  lemma {:induction false} SpliceIsWithout(queue: seq<Call>, index: nat)
    requires index < |queue| && Distinct(queue)
    ensures Spliced(queue, index) == Without(queue, queue[index].id)
  {
    if index == 0 {
      WithoutFirst(queue);
    } else {
      SpliceIsWithout(queue[1..], index - 1);
      assert Spliced(queue, index) == [queue[0]] + Spliced(queue[1..], index - 1);
    }
  }

  class PendingQueue {
    var queue: seq<Call>
    /** The timers `setTimeout` has armed for this queue and that have neither fired nor been cleared. */
    var armed: map<Id, Call>
    /** The `resolve` and `reject` calls made on the promises handed out. */
    var settled: seq<Settlement>
    ghost var issued: set<Id>

    ghost function Table(): Table
      reads this
    {
      RequestTable.Table(issued, queue, armed, settled)
    }

    constructor ()
      ensures Table() == Empty() && Inv(Table())
    {
      queue, armed, settled, issued := [], map[], [], {};
    }

    /** `queue.findIndex((p) => p.id === id)` */
    method FindIndex(id: Id) returns (index: int)
      ensures -1 <= index < |queue|
      ensures index == -1 <==> id !in Ids(queue)
      ensures index >= 0 ==> queue[index].id == id
    {
      index := 0;
      while index < |queue|
        invariant 0 <= index <= |queue|
        invariant forall k :: 0 <= k < index ==> queue[k].id != id
      {
        if queue[index].id == id {
          assert queue[index] in queue;
          return;
        }
        index := index + 1;
      }
      index := -1;
    }

    /** `const index = queue.findIndex(...); if (index >= 0) queue.splice(index, 1)` */
    method Remove(id: Id)
      requires Distinct(queue)
      modifies `queue
      ensures queue == Without(old(queue), id)
    {
      var index := FindIndex(id);
      if index >= 0 {
        SpliceIsWithout(queue, index);
        queue := Spliced(queue, index);
      } else {
        AbsentIsUntouched(queue, id);
      }
    }

    /** `requestFromSidecar`; `sendError` is what `send(id)` throws, if it throws. */
    method RequestFromSidecar(call: Call, sendError: seq<string>)
      requires Inv(Table()) && call.id !in issued
      modifies this
      ensures Inv(Table())
      ensures Table() == Next(old(Table()),
                              if sendError == [] then Issue(call) else IssueFails(call, Failed(sendError[0])))
    {
      ghost var before := Table();
      NextKeepsInv(before, Issue(call));
      issued := issued + {call.id};
      armed := armed[call.id := call];
      queue := queue + [call];
      if sendError != [] {
        UnsendRestores(before, call);
        armed := armed - {call.id};
        Remove(call.id);
        settled := settled + [Settlement(call.id, Rejected(Failed(sendError[0])))];
        NextKeepsInv(before, IssueFails(call, Failed(sendError[0])));
      }
    }

    /** `resolveById` and `rejectById`, by what they settle the promise with. */
    method SettleById(id: Id, outcome: Outcome)
      requires Inv(Table())
      modifies this
      ensures Inv(Table()) && Table() == Next(old(Table()), Reply(id, outcome))
    {
      NextKeepsInv(Table(), Reply(id, outcome));
      var index := FindIndex(id);
      if index < 0 {
        return;
      }
      SpliceIsWithout(queue, index);
      var pending := queue[index];
      queue := Spliced(queue, index);
      armed := armed - {pending.id};
      settled := settled + [Settlement(pending.id, outcome)];
    }

    /** The timer callback: it rejects whether or not the call is still queued. */
    method TimerFires(id: Id)
      requires Inv(Table()) && id in armed
      modifies this
      ensures Inv(Table()) && Table() == Next(old(Table()), Timeout(id))
    {
      NextKeepsInv(Table(), Timeout(id));
      var call := armed[id];
      armed := armed - {id};
      Remove(id);
      settled := settled + [Settlement(id, Rejected(TimeoutError(call)))];
    }

    /** `resolveNext` and `rejectNext`: first in, first out, whoever the answer was meant for. */
    method SettleNext(outcome: Outcome)
      requires Inv(Table())
      modifies this
      ensures Inv(Table())
      ensures Table() == if old(queue) == [] then old(Table()) else Next(old(Table()), Reply(old(queue)[0].id, outcome))
    {
      if queue == [] {
        return;
      }
      var pending := queue[0];
      assert pending in queue;
      NextKeepsInv(Table(), Reply(pending.id, outcome));
      WithoutFirst(queue);
      queue := queue[1..];
      armed := armed - {pending.id};
      settled := settled + [Settlement(pending.id, outcome)];
    }

    /** `rejectQueue`: `splice(0)` empties the array, then each entry is cleared and rejected. */
    method RejectQueue(error: Error)
      requires Inv(Table())
      modifies this
      ensures Inv(Table()) && Table() == Next(old(Table()), RejectAll(error))
    {
      NextKeepsInv(Table(), RejectAll(error));
      var taken := queue;
      queue := [];
      armed, settled := ClearAndReject(taken, armed, settled, error);
    }
  }

  /** Why replies are matched by id: two requests answered in the opposite order are cross-wired when answers go to
      the head of the queue, and are not when they carry their ids. */
  lemma QueueOrderCrossWires(t: Table, first: Call, second: Call, forFirst: Value, forSecond: Value)
    requires Inv(t) && t.pending == [first, second] && forFirst != forSecond
    ensures var byOrder := [Reply(first.id, Resolved(forSecond)), Reply(second.id, Resolved(forFirst))];
            Settlement(first.id, Resolved(forSecond)) in Run(t, byOrder).settled
    ensures var byId := [Reply(second.id, Resolved(forSecond)), Reply(first.id, Resolved(forFirst))];
            && Settlement(first.id, Resolved(forFirst)) in Run(t, byId).settled
            && Settlement(first.id, Resolved(forSecond)) !in Run(t, byId).settled
  {
    assert first in t.pending;
    var byOrder := [Reply(first.id, Resolved(forSecond)), Reply(second.id, Resolved(forFirst))];
    OnlyItsVerdict(t, first, byOrder);
    var byId := [Reply(second.id, Resolved(forSecond)), Reply(first.id, Resolved(forFirst))];
    assert first.id != second.id && byId[1..] == [Reply(first.id, Resolved(forFirst))];
    assert FirstVerdict(byId, first) == FirstVerdict(byId[1..], first) == Decided(Resolved(forFirst));
    OnlyItsVerdict(t, first, byId);
  }
}

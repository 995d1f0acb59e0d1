/** apps/desktop/src/main/sidecar-rpc.ts: the same table kept in a JavaScript Map. */
module SidecarRpc {
  import opened RequestTable
  import opened JsMaps

  const RPC_METHODS: seq<string> := [
    "checkpoint/list", "checkpoint/restore", "git/status", "git/fileDiff", "git/revertFile", "git/commit",
    "git/createBranch", "git/pullRequest", "mcpServer/list", "mcpServer/save", "mcpServer/remove",
    "mcpServer/setEnabled", "session/export", "shell/run", "shell/kill"]

  predicate IsRpcMethod(name: string) {
    name in RPC_METHODS
  }

  ghost predicate KeyedById(m: JsMap<Call>) {
    m.Valid() && forall k :: k in m.at ==> m.at[k].id == k
  }

  lemma KeysAreIds(m: JsMap<Call>)
    requires KeyedById(m)
    ensures Ids(m.Values()) == m.at.Keys
  {
    forall k | k in m.at
      ensures k in Ids(m.Values())
    {
      var i :| 0 <= i < |m.keys| && m.keys[i] == k;
      assert m.Values()[i].id == k;
    }
  }

  lemma NewIsNotPending(t: Table, m: JsMap<Call>, id: Id)
    requires KeyedById(m) && Inv(t) && t.pending == m.Values() && id !in t.issued
    ensures id !in m.at
  {
    KeysAreIds(m);
  }

  lemma SetAppends(m: JsMap<Call>, call: Call)
    requires KeyedById(m) && call.id !in m.at
    ensures KeyedById(m.Set(call.id, call)) && m.Set(call.id, call).Values() == m.Values() + [call]
  {
    SetKeepsValid(m, call.id, call);
  }

  /** Deleting a key takes exactly that call out of the iteration order. */
  lemma DeleteIsWithout(m: JsMap<Call>, id: Id)
    requires KeyedById(m)
    ensures KeyedById(m.Delete(id)) && m.Delete(id).Values() == Without(m.Values(), id)
  {
    DeleteKeepsValid(m, id);
    DeleteFrom(m, id, m.keys, m.Values());
    var d := m.Delete(id);
    assert d.Values() == Without(m.Values(), id);
  }

  lemma {:induction false} DeleteFrom(m: JsMap<Call>, id: Id, keys: seq<Id>, values: seq<Call>)
    requires KeyedById(m) && |keys| == |values|
    requires forall i :: 0 <= i < |keys| ==> keys[i] in m.at && values[i] == m.at[keys[i]]
    ensures |DropKey(keys, id)| == |Without(values, id)|
    ensures forall i :: 0 <= i < |DropKey(keys, id)| ==>
              DropKey(keys, id)[i] in m.at && Without(values, id)[i] == m.at[DropKey(keys, id)[i]]
  {
    if keys != [] {
      assert values[0].id == keys[0];
      DeleteFrom(m, id, keys[1..], values[1..]);
    }
  }

  class RpcClient {
    var pending: JsMap<Call>
    var armed: map<Id, Call>
    var settled: seq<Settlement>
    ghost var issued: set<Id>

    ghost predicate Valid()
      reads this
    {
      KeyedById(pending) && Inv(Table())
    }

    ghost function Table(): Table
      reads this
      requires pending.Valid()
    {
      RequestTable.Table(issued, pending.Values(), armed, settled)
    }

    constructor ()
      ensures Valid() && Table() == Empty()
    {
      pending, armed, settled, issued := JsMap([], map[]), map[], [], {};
    }

    /** `call`: a method outside the allowlist is refused without sending; `sendError` is what `send` throws, if it
        throws. */
    method Call(id: Id, name: string, timeoutMs: nat, sendError: seq<string>) returns (refused: bool)
      requires Valid() && id !in issued
      modifies this
      ensures Valid()
      ensures refused <==> name !in RPC_METHODS
      ensures refused ==> Table() == old(Table())
      ensures !refused && sendError == [] ==>
                Table() == Next(old(Table()), Issue(RequestTable.Call(id, name, timeoutMs)))
      ensures !refused && sendError != [] ==>
                Table() == Next(old(Table()), IssueFails(RequestTable.Call(id, name, timeoutMs), Failed(sendError[0])))
    {
      if !IsRpcMethod(name) {
        return true;
      }
      refused := false;
      ghost var before := Table();
      var call := RequestTable.Call(id, name, timeoutMs);
      Enqueue(call);
      if sendError != [] {
        UnsendRestores(before, call);
        Finish(call.id, Rejected(Failed(sendError[0])));
        NextKeepsInv(before, IssueFails(call, Failed(sendError[0])));
      }
    }

    /** `call` up to the `send`: the timer is armed and the entry set. */
    method Enqueue(call: Call)
      requires Valid() && call.id !in issued
      modifies this
      ensures Valid() && Table() == Next(old(Table()), Issue(call))
    {
      NewIsNotPending(Table(), pending, call.id);
      SetAppends(pending, call);
      NextKeepsInv(Table(), Issue(call));
      issued := issued + {call.id};
      armed := armed[call.id := call];
      pending := pending.Set(call.id, call);
    }

    /** Taking one call out of the map, clearing its timer and settling its promise. */
    method Finish(id: Id, outcome: Outcome)
      requires KeyedById(pending)
      modifies `pending, `armed, `settled
      ensures KeyedById(pending) && pending.Values() == Without(old(pending.Values()), id)
      ensures armed == old(armed) - {id}
      ensures settled == old(settled) + [Settlement(id, outcome)]
    {
      DeleteIsWithout(pending, id);
      armed := armed - {id};
      pending := pending.Delete(id);
      settled := settled + [Settlement(id, outcome)];
    }

    /** The timer callback. */
    method TimerFires(id: Id)
      requires Valid() && id in armed
      modifies this
      ensures Valid() && Table() == Next(old(Table()), Timeout(id))
    {
      NextKeepsInv(Table(), Timeout(id));
      Finish(id, Rejected(TimeoutError(armed[id])));
    }

    /** `settle`: an error text rejects, otherwise the result resolves. */
    method Settle(id: Id, result: Value, error: seq<string>)
      requires Valid()
      modifies this
      ensures Valid()
      ensures Table() == Next(old(Table()),
                              Reply(id, if error != [] then Rejected(Failed(error[0])) else Resolved(result)))
    {
      var outcome := if error != [] then Rejected(Failed(error[0])) else Resolved(result);
      NextKeepsInv(Table(), Reply(id, outcome));
      KeysAreIds(pending);
      if id in pending.at {
        Finish(id, outcome);
      }
    }

    /** `rejectAll`: the entries are rejected in insertion order, then the map is cleared. */
    method RejectEverything(error: Error)
      requires Valid()
      modifies this
      ensures Valid() && Table() == Next(old(Table()), RejectAll(error))
    {
      NextKeepsInv(Table(), RejectAll(error));
      armed, settled := ClearAndReject(pending.Values(), armed, settled, error);
      pending := JsMap([], map[]);
      assert pending.Values() == [];
    }

    /** `size()` counts the table's pending calls. */
    method Size() returns (n: nat)
      requires Valid()
      ensures n == |Table().pending|
    {
      n := |pending.keys|;
    }
  }
}

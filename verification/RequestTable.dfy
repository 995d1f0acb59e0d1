/** The abstract table behind both request clients of the desktop main process: calls are issued under fresh ids,
    wait with an armed timer, and are settled by a reply, by their timer or by a mass rejection. */
module RequestTable {

  type Id = string

  /** A result, as the JSON text it travels in. */
  type Value = string

  datatype Error =
    | DidNotRespond(name: string, seconds: nat)
    | Failed(message: string)

  datatype Outcome = Resolved(value: Value) | Rejected(error: Error)

  /** One `resolve` or `reject` made on the promise of call `id`. */
  datatype Settlement = Settlement(id: Id, outcome: Outcome)

  datatype Call = Call(id: Id, name: string, timeoutMs: nat)

  /** `armed` holds the timers that can still fire, with what their callbacks remember;
      `settled` lists every resolve and reject made, in order. */
  datatype Table = Table(
    issued: set<Id>,
    pending: seq<Call>,
    armed: map<Id, Call>,
    settled: seq<Settlement>)

  datatype Event =
    | Issue(call: Call)
    | IssueFails(call: Call, error: Error)
    | Reply(id: Id, outcome: Outcome)
    | Timeout(id: Id)
    | RejectAll(error: Error)

  function Empty(): Table {
    Table({}, [], map[], [])
  }

  function Ids(calls: seq<Call>): set<Id> {
    set c | c in calls :: c.id
  }

  function SettledIds(settled: seq<Settlement>): set<Id> {
    set s | s in settled :: s.id
  }

  function Without(calls: seq<Call>, id: Id): seq<Call> {
    if calls == [] then []
    else if calls[0].id == id then Without(calls[1..], id)
    else [calls[0]] + Without(calls[1..], id)
  }

  function RejectEach(calls: seq<Call>, error: Error): seq<Settlement> {
    seq(|calls|, i requires 0 <= i < |calls| => Settlement(calls[i].id, Rejected(error)))
  }

  function TimeoutError(call: Call): Error {
    DidNotRespond(call.name, (call.timeoutMs + 999) / 1000)
  }

  /** What an event needs of its environment: ids are fresh, and only an armed timer fires. */
  predicate Enabled(t: Table, e: Event) {
    match e
    case Issue(c) => c.id !in t.issued
    case IssueFails(c, _) => c.id !in t.issued
    case Timeout(id) => id in t.armed
    case _ => true
  }

  function Settle(t: Table, id: Id, outcome: Outcome): Table {
    if id in Ids(t.pending) then
      t.(pending := Without(t.pending, id), armed := t.armed - {id}, settled := t.settled + [Settlement(id, outcome)])
    else t
  }

  function Next(t: Table, e: Event): Table
    requires Enabled(t, e)
  {
    match e
    case Issue(c) => t.(issued := t.issued + {c.id}, pending := t.pending + [c], armed := t.armed[c.id := c])
    case IssueFails(c, error) => t.(issued := t.issued + {c.id},
                                    settled := t.settled + [Settlement(c.id, Rejected(error))])
    case Reply(id, outcome) => Settle(t, id, outcome)
    case Timeout(id) => t.(pending := Without(t.pending, id), armed := t.armed - {id},
                           settled := t.settled + [Settlement(id, Rejected(TimeoutError(t.armed[id])))])
    case RejectAll(error) => t.(pending := [], armed := t.armed - Ids(t.pending),
                                settled := t.settled + RejectEach(t.pending, error))
  }

  ghost predicate Legal(t: Table, es: seq<Event>)
    decreases |es|
  {
    es != [] ==> Enabled(t, es[0]) && Legal(Next(t, es[0]), es[1..])
  }

  function Run(t: Table, es: seq<Event>): Table
    requires Legal(t, es)
    decreases |es|
  {
    if es == [] then t else Run(Next(t, es[0]), es[1..])
  }

  // ---------------------------------------------------------------- the invariant of every run

  predicate Distinct(calls: seq<Call>) {
    forall i, j :: 0 <= i < j < |calls| ==> calls[i].id != calls[j].id
  }

  predicate SettledOnce(settled: seq<Settlement>) {
    forall i, j :: 0 <= i < j < |settled| ==> settled[i].id != settled[j].id
  }

  /** Timers are armed exactly for the pending calls, and remember those calls. */
  predicate TimersMatch(t: Table) {
    && t.armed.Keys == Ids(t.pending)
    && forall c :: c in t.pending ==> c.id in t.armed && t.armed[c.id] == c
  }

  predicate Inv(t: Table) {
    && Distinct(t.pending)
    && TimersMatch(t)
    && SettledOnce(t.settled)
    && Ids(t.pending) !! SettledIds(t.settled)
    && t.issued == Ids(t.pending) + SettledIds(t.settled)
  }

  lemma {:induction false} WithoutHas(calls: seq<Call>, id: Id)
    ensures forall c :: c in Without(calls, id) <==> c in calls && c.id != id
  {
    if calls != [] {
      WithoutHas(calls[1..], id);
      assert calls == [calls[0]] + calls[1..];
    }
  }

  lemma {:induction false} WithoutKeepsDistinct(calls: seq<Call>, id: Id)
    requires Distinct(calls)
    ensures Distinct(Without(calls, id))
  {
    if calls != [] {
      WithoutKeepsDistinct(calls[1..], id);
      var rest := Without(calls[1..], id);
      WithoutHas(calls[1..], id);
      forall j | 0 <= j < |rest|
        ensures rest[j].id != calls[0].id
      {
        assert rest[j] in calls[1..];
      }
    }
  }

  lemma WithoutIds(calls: seq<Call>, id: Id)
    ensures Ids(Without(calls, id)) == Ids(calls) - {id}
  {
    WithoutHas(calls, id);
  }

  lemma SettledIdsGrow(settled: seq<Settlement>, more: seq<Settlement>)
    ensures SettledIds(settled + more) == SettledIds(settled) + SettledIds(more)
  {
  }

  lemma IssueKeepsInv(t: Table, c: Call)
    requires Inv(t) && Enabled(t, Issue(c))
    ensures Inv(Next(t, Issue(c)))
  {
    var t' := Next(t, Issue(c));
    assert Ids(t'.pending) == Ids(t.pending) + {c.id};
    forall d | d in t.pending
      ensures d.id != c.id
    {
      assert d.id in Ids(t.pending);
    }
  }

  lemma SettleOneKeepsInv(t: Table, id: Id, outcome: Outcome)
    requires Inv(t) && id in Ids(t.pending)
    ensures Inv(Settle(t, id, outcome))
  {
    WithoutHas(t.pending, id);
    WithoutIds(t.pending, id);
    WithoutKeepsDistinct(t.pending, id);
    var one := [Settlement(id, outcome)];
    SettledIdsGrow(t.settled, one);
    assert SettledIds(one) == {id};
    forall s | s in t.settled
      ensures s.id != id
    {
      assert s.id in SettledIds(t.settled);
    }
  }

  lemma RejectAllKeepsInv(t: Table, error: Error)
    requires Inv(t)
    ensures Inv(Next(t, RejectAll(error)))
  {
    var more := RejectEach(t.pending, error);
    SettledIdsGrow(t.settled, more);
    assert SettledIds(more) == Ids(t.pending) by {
      forall c | c in t.pending
        ensures c.id in SettledIds(more)
      {
        var i :| 0 <= i < |t.pending| && t.pending[i] == c;
        assert more[i].id == c.id;
      }
    }
    forall i, j | 0 <= i < |t.settled| && 0 <= j < |more|
      ensures t.settled[i].id != more[j].id
    {
      assert t.settled[i].id in SettledIds(t.settled) && t.pending[j].id in Ids(t.pending);
    }
  }

  lemma NextKeepsInv(t: Table, e: Event)
    requires Inv(t) && Enabled(t, e)
    ensures Inv(Next(t, e))
  {
    match e {
      case Issue(c) => IssueKeepsInv(t, c);
      case IssueFails(c, error) =>
        SettledIdsGrow(t.settled, [Settlement(c.id, Rejected(error))]);
        forall s | s in t.settled
          ensures s.id != c.id
        {
          assert s.id in SettledIds(t.settled);
        }
      case Reply(id, outcome) => if id in Ids(t.pending) { SettleOneKeepsInv(t, id, outcome); }
      case Timeout(id) => SettleOneKeepsInv(t, id, Rejected(TimeoutError(t.armed[id])));
      case RejectAll(error) => RejectAllKeepsInv(t, error);
    }
  }

  lemma {:induction false} RunKeepsInv(t: Table, es: seq<Event>)
    requires Inv(t) && Legal(t, es)
    ensures Inv(Run(t, es))
    ensures t.settled <= Run(t, es).settled
    decreases |es|
  {
    if es != [] {
      NextKeepsInv(t, es[0]);
      RunKeepsInv(Next(t, es[0]), es[1..]);
    }
  }

  // ---------------------------------------------------------------- what a run decides

  /** Outcomes are final: every settlement made stays, and no id is ever settled twice. */
  lemma SettledExactlyOnce(es: seq<Event>, more: seq<Event>)
    requires Legal(Empty(), es) && Legal(Run(Empty(), es), more)
    ensures SettledOnce(Run(Empty(), es).settled)
    ensures Run(Empty(), es).settled <= Run(Run(Empty(), es), more).settled
    ensures Run(Empty(), es).armed.Keys == Ids(Run(Empty(), es).pending)
  {
    RunKeepsInv(Empty(), es);
    RunKeepsInv(Run(Empty(), es), more);
  }

  /** A mass rejection rejects the waiting calls in their order and leaves neither call nor timer. */
  lemma RejectsInOrder(t: Table, error: Error)
    requires Inv(t)
    ensures var rejected := Next(t, RejectAll(error));
            && rejected.pending == [] && rejected.armed == map[]
            && |rejected.settled| == |t.settled| + |t.pending| && t.settled <= rejected.settled
            && forall i :: 0 <= i < |t.pending| ==>
                 rejected.settled[|t.settled| + i] == Settlement(t.pending[i].id, Rejected(error))
  {
    NoTimerIsLeft(t);
    var more := RejectEach(t.pending, error);
    forall i | 0 <= i < |t.pending|
      ensures (t.settled + more)[|t.settled| + i] == Settlement(t.pending[i].id, Rejected(error))
    {
      assert (t.settled + more)[|t.settled| + i] == more[i];
    }
  }

  lemma NoTimerIsLeft(t: Table)
    requires Inv(t)
    ensures t.armed - Ids(t.pending) == map[]
  {
  }

  /** And that order is the one they were issued in: of two calls issued one after the other, however many events come
      in between, the first is ahead as long as both wait. */
  lemma FirstIssuedIsAhead(t: Table, c: Call, es: seq<Event>, d: Call)
    requires Inv(t) && c.id !in t.issued && Legal(Next(t, Issue(c)), es)
    requires Enabled(Run(Next(t, Issue(c)), es), Issue(d))
    ensures var waiting := Next(Run(Next(t, Issue(c)), es), Issue(d)).pending;
            waiting[|waiting| - 1] == d && (c in waiting ==> exists i :: 0 <= i < |waiting| - 1 && waiting[i] == c)
  {
    var u := Run(Next(t, Issue(c)), es);
    NextKeepsInv(t, Issue(c));
    RunKeepsInv(Next(t, Issue(c)), es);
    StaysIssued(Next(t, Issue(c)), es, c.id);
    assert c != d;
    if c in u.pending {
      var i :| 0 <= i < |u.pending| && u.pending[i] == c;
      assert (u.pending + [d])[i] == c;
    }
  }

  lemma {:induction false} StaysIssued(t: Table, es: seq<Event>, id: Id)
    requires Legal(t, es) && id in t.issued
    ensures id in Run(t, es).issued
    decreases |es|
  {
    if es != [] {
      StaysIssued(Next(t, es[0]), es[1..], id);
    }
  }

  /** A call that times out is rejected with its name and the least number of seconds that cover its timeout. */
  lemma TimeoutSaysHowLong(t: Table, c: Call) returns (seconds: nat)
    requires Inv(t) && c in t.pending
    ensures Next(t, Timeout(c.id)).settled
         == t.settled + [Settlement(c.id, Rejected(DidNotRespond(c.name, seconds)))]
    ensures c.timeoutMs <= 1000 * seconds && forall n: nat :: c.timeoutMs <= 1000 * n ==> seconds <= n
  {
    seconds := (c.timeoutMs + 999) / 1000;
    assert c.id in Ids(t.pending) && t.armed[c.id] == c;
  }

  /** A call whose sending fails is rejected with the very error, and leaves nothing else behind. */
  lemma FailedSendSaysWhy(t: Table, c: Call, error: Error)
    requires Inv(t) && c.id !in t.issued
    ensures var failed := Next(t, IssueFails(c, error));
            && failed.settled == t.settled + [Settlement(c.id, Rejected(error))]
            && failed.pending == t.pending && failed.armed == t.armed && failed.issued == t.issued + {c.id}
  {
  }

  function Resolutions(settled: seq<Settlement>): nat {
    if settled == [] then 0 else (if settled[0].outcome.Resolved? then 1 else 0) + Resolutions(settled[1..])
  }

  function Rejections(settled: seq<Settlement>): nat {
    if settled == [] then 0 else (if settled[0].outcome.Rejected? then 1 else 0) + Rejections(settled[1..])
  }

  lemma {:induction false} CountCalls(calls: seq<Call>)
    requires Distinct(calls)
    ensures |Ids(calls)| == |calls|
  {
    if calls != [] {
      CountCalls(calls[1..]);
      assert Ids(calls) == {calls[0].id} + Ids(calls[1..]);
    }
  }

  lemma FirstSettled(settled: seq<Settlement>)
    requires SettledOnce(settled) && settled != []
    ensures SettledIds(settled) == {settled[0].id} + SettledIds(settled[1..])
    ensures settled[0].id !in SettledIds(settled[1..])
  {
    assert settled == [settled[0]] + settled[1..];
    SettledIdsGrow([settled[0]], settled[1..]);
  }

  lemma {:induction false} CountSettled(settled: seq<Settlement>)
    requires SettledOnce(settled)
    ensures |SettledIds(settled)| == Resolutions(settled) + Rejections(settled)
  {
    if settled != [] {
      CountSettled(settled[1..]);
      FirstSettled(settled);
    }
  }

  /** Nothing issued is ever lost: it is pending, resolved or rejected, and only one of these. */
  lemma Conservation(es: seq<Event>)
    requires Legal(Empty(), es)
    ensures var t := Run(Empty(), es);
            |t.issued| == |t.pending| + Resolutions(t.settled) + Rejections(t.settled)
  {
    RunKeepsInv(Empty(), es);
    var t := Run(Empty(), es);
    CountCalls(t.pending);
    CountSettled(t.settled);
  }

  datatype Verdict = StillWaiting | Decided(outcome: Outcome)

  /** The fate of one call, read off the events alone: the first that names it, or a mass rejection. */
  function FirstVerdict(es: seq<Event>, c: Call): Verdict {
    if es == [] then StillWaiting
    else
      match es[0]
      case Reply(id, outcome) => if id == c.id then Decided(outcome) else FirstVerdict(es[1..], c)
      case Timeout(id) => if id == c.id then Decided(Rejected(TimeoutError(c))) else FirstVerdict(es[1..], c)
      case RejectAll(error) => Decided(Rejected(error))
      case _ => FirstVerdict(es[1..], c)
  }

  lemma OneStepDecides(t: Table, c: Call, e: Event)
    requires Inv(t) && Enabled(t, e) && c in t.pending
    ensures match FirstVerdict([e], c)
            case StillWaiting => c in Next(t, e).pending
            case Decided(outcome) => Settlement(c.id, outcome) in Next(t, e).settled
  {
    WithoutHas(t.pending, match e case Reply(id, _) => id case Timeout(id) => id case _ => "");
    assert c.id in Ids(t.pending) && t.armed[c.id] == c;
    match e {
      case RejectAll(error) =>
        var i :| 0 <= i < |t.pending| && t.pending[i] == c;
        assert RejectEach(t.pending, error)[i] == Settlement(c.id, Rejected(error));
      case _ =>
    }
  }

  /** The answers to other calls, and their order, make no difference to a call: only its own first verdict does. */
  lemma {:induction false} OwnVerdictDecides(t: Table, c: Call, es: seq<Event>)
    requires Inv(t) && Legal(t, es) && c in t.pending
    ensures match FirstVerdict(es, c)
            case StillWaiting => c in Run(t, es).pending
            case Decided(outcome) => Settlement(c.id, outcome) in Run(t, es).settled
    decreases |es|
  {
    if es != [] {
      OneStepDecides(t, c, es[0]);
      NextKeepsInv(t, es[0]);
      if FirstVerdict([es[0]], c).StillWaiting? {
        OwnVerdictDecides(Next(t, es[0]), c, es[1..]);
      } else {
        RunKeepsInv(Next(t, es[0]), es[1..]);
      }
    }
  }

  ghost predicate RepliesToDistinctIds(es: seq<Event>) {
    && (forall e :: e in es ==> e.Reply?)
    && (forall i, j :: 0 <= i < j < |es| ==> es[i].id != es[j].id)
  }

  lemma {:induction false} ReplyIsVerdict(es: seq<Event>, c: Call)
    requires RepliesToDistinctIds(es)
    ensures forall outcome :: Reply(c.id, outcome) in es <==> FirstVerdict(es, c) == Decided(outcome)
  {
    if es != [] {
      assert es[0].Reply?;
      assert es == [es[0]] + es[1..];
      ReplyIsVerdict(es[1..], c);
    }
  }

  /** Replies may arrive in any order: the same replies settle every pending call the same way. */
  lemma ReorderedRepliesSettleAlike(t: Table, c: Call, es: seq<Event>, es': seq<Event>)
    requires Inv(t) && c in t.pending && Legal(t, es) && Legal(t, es')
    requires RepliesToDistinctIds(es) && RepliesToDistinctIds(es')
    requires forall e :: e in es <==> e in es'
    ensures FirstVerdict(es, c) == FirstVerdict(es', c)
    ensures forall outcome :: Settlement(c.id, outcome) in Run(t, es).settled
                         <==> Settlement(c.id, outcome) in Run(t, es').settled
  {
    ReplyIsVerdict(es, c);
    ReplyIsVerdict(es', c);
    assert FirstVerdict(es, c) == FirstVerdict(es', c) by {
      assert forall outcome :: Reply(c.id, outcome) in es <==> Reply(c.id, outcome) in es';
    }
    OnlyItsVerdict(t, c, es);
    OnlyItsVerdict(t, c, es');
  }

  lemma OnlyItsVerdict(t: Table, c: Call, es: seq<Event>)
    requires Inv(t) && c in t.pending && Legal(t, es)
    ensures forall outcome :: Settlement(c.id, outcome) in Run(t, es).settled
                         <==> FirstVerdict(es, c) == Decided(outcome)
  {
    var u := Run(t, es);
    OwnVerdictDecides(t, c, es);
    RunKeepsInv(t, es);
    forall outcome | Settlement(c.id, outcome) in u.settled
      ensures FirstVerdict(es, c) == Decided(outcome)
    {
      var i :| 0 <= i < |u.settled| && u.settled[i] == Settlement(c.id, outcome);
      assert c.id in SettledIds(u.settled);
      assert c in u.pending ==> c.id in Ids(u.pending);
      var o := FirstVerdict(es, c).outcome;
      var j :| 0 <= j < |u.settled| && u.settled[j] == Settlement(c.id, o);
      assert i == j;
    }
  }

  function Timeouts(calls: seq<Call>): seq<Event> {
    if calls == [] then [] else [Timeout(calls[0].id)] + Timeouts(calls[1..])
  }

  /** No call waits for ever: once the armed timers have fired, nothing is pending. */
  lemma {:induction false} TimersSettleEverything(t: Table)
    requires Inv(t)
    ensures Legal(t, Timeouts(t.pending))
    ensures Run(t, Timeouts(t.pending)).pending == []
    ensures Run(t, Timeouts(t.pending)).issued == SettledIds(Run(t, Timeouts(t.pending)).settled)
    decreases |t.pending|
  {
    if t.pending != [] {
      var e := Timeout(t.pending[0].id);
      assert t.pending[0].id in Ids(t.pending);
      NextKeepsInv(t, e);
      WithoutFirst(t.pending);
      TimersSettleEverything(Next(t, e));
      assert Timeouts(t.pending)[1..] == Timeouts(t.pending[1..]);
    }
  }

  lemma WithoutFirst(calls: seq<Call>)
    requires Distinct(calls) && calls != []
    ensures Without(calls, calls[0].id) == calls[1..]
  {
    AbsentIsUntouched(calls[1..], calls[0].id);
  }

  lemma {:induction false} AbsentIsUntouched(calls: seq<Call>, id: Id)
    requires forall c :: c in calls ==> c.id != id
    ensures Without(calls, id) == calls
  {
    if calls != [] {
      AbsentIsUntouched(calls[1..], id);
      assert calls[0] in calls;
    }
  }

  // ---------------------------------------------------------------- steps shared by both implementations

  /** Undoing the enqueueing of a fresh call, as both clients do when `send` throws. */
  lemma UnsendRestores(t: Table, call: Call)
    requires Inv(t) && call.id !in t.issued
    ensures Without(t.pending + [call], call.id) == t.pending
    ensures t.armed[call.id := call] - {call.id} == t.armed
  {
    assert forall c :: c in t.pending ==> c.id in Ids(t.pending);
    WithoutSnoc(t.pending, call, call.id);
    AbsentIsUntouched(t.pending, call.id);
  }

  lemma {:induction false} WithoutSnoc(calls: seq<Call>, call: Call, id: Id)
    ensures Without(calls + [call], id) == Without(calls, id) + if call.id == id then [] else [call]
  {
    if calls != [] {
      assert (calls + [call])[1..] == calls[1..] + [call];
      WithoutSnoc(calls[1..], call, id);
    }
  }

  /** Clearing one timer after the other clears the whole set. */
  lemma ClearOneMore(armed: map<Id, Call>, calls: seq<Call>, i: nat)
    requires i < |calls|
    ensures armed - Ids(calls[..i + 1]) == (armed - Ids(calls[..i])) - {calls[i].id}
  {
    assert calls[..i + 1] == calls[..i] + [calls[i]];
    assert Ids(calls[..i + 1]) == Ids(calls[..i]) + {calls[i].id};
  }

  lemma RejectOneMore(settled: seq<Settlement>, calls: seq<Call>, error: Error, i: nat)
    requires i < |calls|
    ensures settled + RejectEach(calls[..i + 1], error)
         == settled + RejectEach(calls[..i], error) + [Settlement(calls[i].id, Rejected(error))]
  {
    assert RejectEach(calls[..i + 1], error)
           == RejectEach(calls[..i], error) + [Settlement(calls[i].id, Rejected(error))];
  }

  /** The loop of both clients that clears the timer and rejects the promise of one call after the other. */
  method ClearAndReject(calls: seq<Call>, armed0: map<Id, Call>, settled0: seq<Settlement>, error: Error)
    returns (armed: map<Id, Call>, settled: seq<Settlement>)
    ensures armed == armed0 - Ids(calls)
    ensures settled == settled0 + RejectEach(calls, error)
  {
    armed, settled := armed0, settled0;
    var i := 0;
    while i < |calls|
      invariant 0 <= i <= |calls|
      invariant armed == armed0 - Ids(calls[..i])
      invariant settled == settled0 + RejectEach(calls[..i], error)
    {
      ClearOneMore(armed0, calls, i);
      RejectOneMore(settled0, calls, error, i);
      armed := armed - {calls[i].id};
      settled := settled + [Settlement(calls[i].id, Rejected(error))];
      i := i + 1;
    }
    assert calls[..i] == calls;
  }
}

/** The whole system contains the machines it is made of: in any run its supervisor goes through a run of the
    supervisor, and each of its tables through a run of the request table, so that what is proved of those runs holds
    within the system. */
module SystemRuns {
  import opened Collections
  import opened RequestTable
  import opened SidecarProtocol
  import Sup = Supervisor

  type SystemEvent = SidecarProtocol.Event

  // ---------------------------------------------------------------- the supervisor

  /** A message of child `c` for each line that can be read; malformed ones are only logged. */
  function Heard(w: Wire, c: nat, lines: seq<string>): seq<Sup.Event> {
    if lines == [] then []
    else (if w.readMessage(lines[0]).Some? then [Sup.Line(c)] else []) + Heard(w, c, lines[1..])
  }

  /** What a step of the system is for the supervisor. */
  function ForSupervisor(w: Wire, s: State, e: SystemEvent): seq<Sup.Event>
    requires SidecarProtocol.Enabled(s, e)
  {
    match e
    case Lifecycle(l) => [l]
    case MainReads(c, n) => Heard(w, c, s.children[c].output.Arrivals(n))
    case _ => []
  }

  function AllForSupervisor(w: Wire, s: State, es: seq<SystemEvent>): seq<Sup.Event>
    requires SidecarProtocol.Legal(w, s, es)
    decreases |es|
  {
    if es == [] then [] else ForSupervisor(w, s, es[0]) + AllForSupervisor(w, Step(w, s, es[0]), es[1..])
  }

  lemma {:induction false} SupRunAppend(s: Sup.State, a: seq<Sup.Event>, b: seq<Sup.Event>)
    ensures Sup.Run(s, a + b) == Sup.Run(Sup.Run(s, a), b)
    ensures Sup.Legal(s, a + b) <==> Sup.Legal(s, a) && Sup.Legal(Sup.Run(s, a), b)
    decreases |a|
  {
    if a == [] {
      assert a + b == b;
    } else {
      assert (a + b)[1..] == a[1..] + b;
      SupRunAppend(Sup.Next(s, a[0]), a[1..], b);
    }
  }

  lemma SupRunOne(s: Sup.State, e: Sup.Event)
    ensures Sup.Run(s, [e]) == Sup.Next(s, e) && (Sup.Legal(s, [e]) <==> Sup.Enabled(s, e))
  {
    assert [e][1..] == [];
    assert Sup.Run(Sup.Next(s, e), []) == Sup.Next(s, e);
  }

  lemma {:induction false} HandlingIsHearing(w: Wire, s: State, c: nat, lines: seq<string>)
    requires c < s.sup.spawned
    ensures HandleAll(w, s, c, lines).sup == Sup.Run(s.sup, Heard(w, c, lines)) && Sup.Legal(s.sup, Heard(w, c, lines))
    decreases |lines|
  {
    if lines != [] {
      var first := if w.readMessage(lines[0]).Some? then [Sup.Line(c)] else [];
      HandlingIsHearing(w, Handle(w, s, c, lines[0]), c, lines[1..]);
      SupRunOne(s.sup, Sup.Line(c));
      SupRunAppend(s.sup, first, Heard(w, c, lines[1..]));
    }
  }

  lemma StepOfTheSupervisor(w: Wire, s: State, e: SystemEvent)
    requires Sup.Inv(s.sup) && |s.children| == s.sup.spawned && SidecarProtocol.Enabled(s, e)
    ensures Sup.Legal(s.sup, ForSupervisor(w, s, e))
    ensures Step(w, s, e).sup == Sup.Run(s.sup, ForSupervisor(w, s, e))
  {
    if e.MainReads? {
      var child := s.children[e.child];
      var s1 := s.(children := s.children[e.child := child.(output := child.output.Read(e.n))]);
      HandlingIsHearing(w, s1, e.child, child.output.Arrivals(e.n));
    } else if e.Lifecycle? {
      SupRunOne(s.sup, e.e);
    } else {
      OthersLeaveSup(w, s, e);
    }
  }

  /** Every run of the system is a run of the supervisor, fed with the lifecycle events and one message for each line
      read. */
  lemma {:induction false} SupervisorRunsInside(w: Wire, s: State, es: seq<SystemEvent>)
    requires Sup.Inv(s.sup) && |s.children| == s.sup.spawned && SidecarProtocol.Legal(w, s, es)
    ensures Sup.Legal(s.sup, AllForSupervisor(w, s, es))
    ensures SidecarProtocol.Run(w, s, es).sup == Sup.Run(s.sup, AllForSupervisor(w, s, es))
    decreases |es|
  {
    if es != [] {
      StepOfTheSupervisor(w, s, es[0]);
      StepKeepsSup(w, s, es[0]);
      SupervisorRunsInside(w, Step(w, s, es[0]), es[1..]);
      SupRunAppend(s.sup, ForSupervisor(w, s, es[0]), AllForSupervisor(w, Step(w, s, es[0]), es[1..]));
    }
  }

  // ---------------------------------------------------------------- the tables

  /** The replies among the lines that go to the queue of kind `k`. */
  function Replies(w: Wire, lines: seq<string>, k: Kind): seq<RequestTable.Event> {
    if lines == [] then [] else ReplyOf(w, lines[0], k) + Replies(w, lines[1..], k)
  }

  function ReplyOf(w: Wire, line: string, k: Kind): seq<RequestTable.Event> {
    match w.readMessage(line)
    case Some(Answer(k', id, outcome)) => if k' == k then [Reply(id, outcome)] else []
    case _ => []
  }

  /** What a step of the system is for the table of kind `k`. */
  function ForTable(w: Wire, s: State, e: SystemEvent, k: Kind): seq<RequestTable.Event>
    requires SidecarProtocol.Enabled(s, e)
  {
    match e
    case Issue(call, r, writable) =>
      if r.kind != k then []
      else if CanSend(s, writable) then [RequestTable.Issue(call)]
      else [IssueFails(call, UNAVAILABLE)]
    case MainReads(c, n) => Replies(w, s.children[c].output.Arrivals(n), k)
    case TimedOut(k', id) => if k' == k then [Timeout(id)] else []
    case Lifecycle(l) =>
      if (l.ChildExit? || l.ChildError?) && s.sup.current == Sup.Child(l.child)
         && k !in {SessionRename, SessionArchive, SessionBranch, SessionSearch} then [RejectAll(STOPPED)]
      else []
    case _ => []
  }

  function AllForTable(w: Wire, s: State, es: seq<SystemEvent>, k: Kind): seq<RequestTable.Event>
    requires SidecarProtocol.Legal(w, s, es)
    decreases |es|
  {
    if es == [] then [] else ForTable(w, s, es[0], k) + AllForTable(w, Step(w, s, es[0]), es[1..], k)
  }

  lemma {:induction false} TableRunAppend(t: Table, a: seq<RequestTable.Event>, b: seq<RequestTable.Event>)
    ensures RequestTable.Legal(t, a + b) <==>
            RequestTable.Legal(t, a) && RequestTable.Legal(RequestTable.Run(t, a), b)
    ensures RequestTable.Legal(t, a + b) ==>
              RequestTable.Run(t, a + b) == RequestTable.Run(RequestTable.Run(t, a), b)
    decreases |a|
  {
    if a == [] {
      assert a + b == b;
    } else {
      assert (a + b)[1..] == a[1..] + b;
      if RequestTable.Enabled(t, a[0]) {
        TableRunAppend(Next(t, a[0]), a[1..], b);
      }
    }
  }

  lemma TableRunOne(t: Table, e: RequestTable.Event)
    requires RequestTable.Enabled(t, e)
    ensures RequestTable.Legal(t, [e]) && RequestTable.Run(t, [e]) == Next(t, e)
  {
    assert [e][1..] == [];
    assert RequestTable.Run(Next(t, e), []) == Next(t, e);
  }

  lemma {:induction false} HandlingIsReplying(w: Wire, s: State, c: nat, lines: seq<string>, k: Kind)
    ensures RequestTable.Legal(TableOf(s.tables, k), Replies(w, lines, k))
    ensures TableOf(HandleAll(w, s, c, lines).tables, k)
            == RequestTable.Run(TableOf(s.tables, k), Replies(w, lines, k))
    decreases |lines|
  {
    if lines != [] {
      var t := TableOf(s.tables, k);
      HandlingIsReplying(w, Handle(w, s, c, lines[0]), c, lines[1..], k);
      LineIsReply(w, s, c, lines[0], k);
      TableRunAppend(t, ReplyOf(w, lines[0], k), Replies(w, lines[1..], k));
    }
  }

  lemma LineIsReply(w: Wire, s: State, c: nat, line: string, k: Kind)
    ensures RequestTable.Legal(TableOf(s.tables, k), ReplyOf(w, line, k))
    ensures TableOf(Handle(w, s, c, line).tables, k) == RequestTable.Run(TableOf(s.tables, k), ReplyOf(w, line, k))
  {
    var t := TableOf(s.tables, k);
    var message := w.readMessage(line);
    if message.Some? && message.value.Answer? && message.value.kind == k {
      AnswerIsReply(w, s, c, line, k, message.value.id, message.value.outcome);
    } else {
      assert ReplyOf(w, line, k) == [] && RequestTable.Run(t, []) == t;
    }
  }

  lemma AnswerIsReply(w: Wire, s: State, c: nat, line: string, k: Kind, id: Id, outcome: Outcome)
    requires w.readMessage(line) == Some(Answer(k, id, outcome))
    ensures RequestTable.Legal(TableOf(s.tables, k), ReplyOf(w, line, k))
    ensures TableOf(Handle(w, s, c, line).tables, k) == RequestTable.Run(TableOf(s.tables, k), ReplyOf(w, line, k))
  {
    TableRunOne(TableOf(s.tables, k), Reply(id, outcome));
  }

  lemma RejectingOneTable(s: State, l: Sup.Event, k: Kind)
    ensures TableOf(LifecycleStep(s, l).tables, k)
            == if Rejects(s, l) && Drained(k) then Next(TableOf(s.tables, k), RejectAll(STOPPED))
               else TableOf(s.tables, k)
  {
    assert Next(Empty(), RejectAll(STOPPED)) == Empty();
  }

  lemma StepOfTheTable(w: Wire, s: State, e: SystemEvent, k: Kind)
    requires SidecarProtocol.Enabled(s, e)
    ensures RequestTable.Legal(TableOf(s.tables, k), ForTable(w, s, e, k))
    ensures TableOf(Step(w, s, e).tables, k) == RequestTable.Run(TableOf(s.tables, k), ForTable(w, s, e, k))
  {
    var t := TableOf(s.tables, k);
    match e {
      case Issue(call, r, writable) =>
        TableRunOne(TableOf(s.tables, r.kind), RequestTable.Issue(call));
        TableRunOne(TableOf(s.tables, r.kind), IssueFails(call, UNAVAILABLE));
      case MainReads(c, n) =>
        var child := s.children[c];
        var s1 := s.(children := s.children[c := child.(output := child.output.Read(n))]);
        HandlingIsReplying(w, s1, c, child.output.Arrivals(n), k);
      case TimedOut(k', id) => TableRunOne(TableOf(s.tables, k'), Timeout(id));
      case Lifecycle(l) =>
        TableRunOne(t, RejectAll(STOPPED));
        RejectingOneTable(s, l, k);
      case _ =>
    }
  }

  /** Every run of the system is, for each of its tables, a run of that table. */
  lemma {:induction false} TablesRunInside(w: Wire, s: State, es: seq<SystemEvent>, k: Kind)
    requires SidecarProtocol.Legal(w, s, es)
    ensures RequestTable.Legal(TableOf(s.tables, k), AllForTable(w, s, es, k))
    ensures TableOf(SidecarProtocol.Run(w, s, es).tables, k)
            == RequestTable.Run(TableOf(s.tables, k), AllForTable(w, s, es, k))
    decreases |es|
  {
    if es != [] {
      StepOfTheTable(w, s, es[0], k);
      TablesRunInside(w, Step(w, s, es[0]), es[1..], k);
      TableRunAppend(TableOf(s.tables, k), ForTable(w, s, es[0], k), AllForTable(w, Step(w, s, es[0]), es[1..], k));
    }
  }

  /** Hence, in every run of the system from program start: no two sidecars are alive and unkilled, and in each table
      every request is pending, resolved or rejected, and only one of these. */
  lemma WholeSystemIsSound(w: Wire, es: seq<SystemEvent>, k: Kind)
    requires SidecarProtocol.Legal(w, SidecarProtocol.INITIAL, es)
    ensures var s := SidecarProtocol.Run(w, SidecarProtocol.INITIAL, es);
            var ended := Sup.Ended(AllForSupervisor(w, SidecarProtocol.INITIAL, es));
            forall c :: 0 <= c < s.sup.spawned && c !in s.sup.killed && c !in ended ==> s.sup.current == Sup.Child(c)
    ensures var t := TableOf(SidecarProtocol.Run(w, SidecarProtocol.INITIAL, es).tables, k);
            |t.issued| == |t.pending| + Resolutions(t.settled) + Rejections(t.settled)
  {
    SupervisorRunsInside(w, SidecarProtocol.INITIAL, es);
    Sup.EveryRunIsSafe(AllForSupervisor(w, SidecarProtocol.INITIAL, es));
    TablesRunInside(w, SidecarProtocol.INITIAL, es, k);
    Conservation(AllForTable(w, SidecarProtocol.INITIAL, es, k));
  }
}

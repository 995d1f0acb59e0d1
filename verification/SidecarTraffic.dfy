/** Who hears and says what over whole runs: each sidecar is written exactly the commands issued while it was current,
    and says exactly what it was given to say. */
module SidecarTraffic {
  import opened RequestTable
  import opened SidecarProtocol
  import opened SidecarDelivery
  import PendingFate
  import Sup = Supervisor

  type SystemEvent = SidecarProtocol.Event

  function Inputs(s: State, c: nat): seq<string> {
    if c < |s.children| then s.children[c].input.lines else []
  }

  function Outputs(s: State, c: nat): seq<string> {
    if c < |s.children| then s.children[c].output.lines else []
  }

  // ---------------------------------------------------------------- what a child hears

  /** The lines child `c` is to be written by a step: those of commands given while it is current and can be written. */
  function Commanded(w: Wire, s: State, e: SystemEvent, c: nat): seq<string> {
    if s.sup.current != Sup.Child(c) || c >= |s.children| then []
    else
      match e
      case Issue(call, r, writable) => if writable then [w.writeCommand(Ask(call.id, r))] else []
      case Tell(text, writable) => if writable then [w.writeCommand(OtherCommand(text))] else []
      case _ => []
  }

  function AllCommanded(w: Wire, s: State, es: seq<SystemEvent>, c: nat): seq<string>
    requires SidecarProtocol.Legal(w, s, es)
    decreases |es|
  {
    if es == [] then [] else Commanded(w, s, es[0], c) + AllCommanded(w, Step(w, s, es[0]), es[1..], c)
  }

  /** What child `c` is to say in a step: the outcome given for the request it is given for, under its id. */
  function Said(s: State, e: SystemEvent, c: nat): seq<Message>
    requires SidecarProtocol.Enabled(s, e)
  {
    match e
    case SidecarAnswers(d, j, outcome) =>
      if d == c then [Answer(s.children[c].jobs[j].request.kind, s.children[c].jobs[j].id, outcome)] else []
    case SidecarLists(d, outcome) =>
      if d == c then [Answer(s.children[c].chain[0].request.kind, s.children[c].chain[0].id, outcome)] else []
    case SidecarSays(d, text) => if d == c then [OtherMessage(text)] else []
    case _ => []
  }

  function AllSaid(w: Wire, s: State, es: seq<SystemEvent>, c: nat): seq<Message>
    requires SidecarProtocol.Legal(w, s, es)
    decreases |es|
  {
    if es == [] then [] else Said(s, es[0], c) + AllSaid(w, Step(w, s, es[0]), es[1..], c)
  }

  function Written(w: Wire, messages: seq<Message>): seq<string> {
    seq(|messages|, i requires 0 <= i < |messages| => w.writeMessage(messages[i]))
  }

  lemma ReadingWrites(w: Wire, s: State, e: SystemEvent, c: nat)
    requires SidecarProtocol.Enabled(s, e) && (e.MainReads? || e.SidecarReads?)
    ensures Inputs(Step(w, s, e), c) == Inputs(s, c) && Outputs(Step(w, s, e), c) == Outputs(s, c)
  {
    match e {
      case MainReads(d, n) =>
        var child := s.children[d];
        var s1 := s.(children := s.children[d := child.(output := child.output.Read(n))]);
        HandleAllChildren(w, s1, d, child.output.Arrivals(n));
      case SidecarReads(d, n) =>
        var child := s.children[d];
        TakeInTouchesOnlyJobs(w, child.(input := child.input.Read(n)), child.input.Arrivals(n));
    }
  }

  lemma StepWrites(w: Wire, s: State, e: SystemEvent, c: nat)
    requires SidecarProtocol.Enabled(s, e)
    ensures Inputs(Step(w, s, e), c) == Inputs(s, c) + Commanded(w, s, e, c)
    ensures Outputs(Step(w, s, e), c) == Outputs(s, c) + Written(w, Said(s, e, c))
  {
    if e.MainReads? || e.SidecarReads? {
      ReadingWrites(w, s, e, c);
    } else if e.Issue? || e.Tell? {
      CommandWrites(w, s, e, c);
    } else {
      OtherWrites(w, s, e, c);
    }
  }

  lemma CommandWrites(w: Wire, s: State, e: SystemEvent, c: nat)
    requires SidecarProtocol.Enabled(s, e) && (e.Issue? || e.Tell?)
    ensures Inputs(Step(w, s, e), c) == Inputs(s, c) + Commanded(w, s, e, c)
    ensures Outputs(Step(w, s, e), c) == Outputs(s, c)
  {
  }

  lemma OtherWrites(w: Wire, s: State, e: SystemEvent, c: nat)
    requires SidecarProtocol.Enabled(s, e) && !e.MainReads? && !e.SidecarReads? && !e.Issue? && !e.Tell?
    ensures Inputs(Step(w, s, e), c) == Inputs(s, c) && Commanded(w, s, e, c) == []
    ensures Outputs(Step(w, s, e), c) == Outputs(s, c) + Written(w, Said(s, e, c))
  {
  }

  /** Over any run each child is written exactly the commands given while it was the current one, in order: whatever is
      sent after a restart goes to the new child, and a replaced one hears nothing more. */
  lemma {:induction false} EachChildHearsItsCommands(w: Wire, s: State, es: seq<SystemEvent>, c: nat)
    requires SidecarProtocol.Legal(w, s, es)
    ensures Inputs(SidecarProtocol.Run(w, s, es), c) == Inputs(s, c) + AllCommanded(w, s, es, c)
    decreases |es|
  {
    if es != [] {
      StepWrites(w, s, es[0], c);
      EachChildHearsItsCommands(w, Step(w, s, es[0]), es[1..], c);
      Regroup(Inputs(s, c), Commanded(w, s, es[0], c), AllCommanded(w, Step(w, s, es[0]), es[1..], c));
    }
  }

  /** And each child says exactly what it was given to say, in order. */
  lemma {:induction false} EachChildSaysItsAnswers(w: Wire, s: State, es: seq<SystemEvent>, c: nat)
    requires SidecarProtocol.Legal(w, s, es)
    ensures Outputs(SidecarProtocol.Run(w, s, es), c) == Outputs(s, c) + Written(w, AllSaid(w, s, es, c))
    decreases |es|
  {
    if es != [] {
      var now, later := Said(s, es[0], c), AllSaid(w, Step(w, s, es[0]), es[1..], c);
      StepWrites(w, s, es[0], c);
      EachChildSaysItsAnswers(w, Step(w, s, es[0]), es[1..], c);
      WrittenAppend(w, now, later);
      Regroup(Outputs(s, c), Written(w, now), Written(w, later));
    }
  }

  lemma Regroup(a: seq<string>, b: seq<string>, c: seq<string>)
    ensures (a + b) + c == a + (b + c)
  {
  }

  lemma WrittenAppend(w: Wire, a: seq<Message>, b: seq<Message>)
    ensures Written(w, a + b) == Written(w, a) + Written(w, b)
  {
  }

  lemma {:induction false} ReplacedHearsNothing(w: Wire, s: State, es: seq<SystemEvent>, c: nat)
    requires SidecarProtocol.Legal(w, s, es) && PendingFate.Replaced(s.sup, c)
    ensures Inputs(SidecarProtocol.Run(w, s, es), c) == Inputs(s, c)
    decreases |es|
  {
    if es != [] {
      StepWrites(w, s, es[0], c);
      PendingFate.StepMovesOn(w, s, es[0], c);
      ReplacedHearsNothing(w, Step(w, s, es[0]), es[1..], c);
    }
  }

  /** A request accepted while child `c` was current has its line among what `c` was written, whatever happens next. */
  lemma RequestGoesToTheCurrent(w: Wire, s: State, call: Call, r: Request, c: nat, es: seq<SystemEvent>)
    requires SidecarProtocol.Enabled(s, SidecarProtocol.Event.Issue(call, r, true))
    requires s.sup.current == Sup.Child(c) && c < |s.children|
    requires SidecarProtocol.Legal(w, Issued(w, s, call, r, true), es)
    ensures w.writeCommand(Ask(call.id, r)) in Inputs(SidecarProtocol.Run(w, Issued(w, s, call, r, true), es), c)
    ensures IsPending(Issued(w, s, call, r, true).tables, r.kind, call.id)
  {
    StepWrites(w, s, SidecarProtocol.Event.Issue(call, r, true), c);
    EachChildHearsItsCommands(w, Issued(w, s, call, r, true), es, c);
    PendingFate.AskedIsPending(w, s, call, r);
  }

  /** A request that cannot be sent is rejected at once with the reason, and nothing is written anywhere. */
  lemma UnsendableIsRejected(w: Wire, s: State, call: Call, r: Request, writable: bool, c: nat)
    requires SidecarProtocol.Enabled(s, SidecarProtocol.Event.Issue(call, r, writable))
    requires s.sup.current.NoChild? || !writable
    ensures var t := Issued(w, s, call, r, writable);
            && Settlement(call.id, Rejected(UNAVAILABLE)) in TableOf(t.tables, r.kind).settled
            && TableOf(t.tables, r.kind).pending == TableOf(s.tables, r.kind).pending
            && Inputs(t, c) == Inputs(s, c)
  {
  }
}

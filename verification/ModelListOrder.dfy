/** packages/cli/src/ipc-server.ts serializes live model listings on a promise chain: slow providers cannot reorder
    their answers. */
module ModelListOrder {
  import opened Collections
  import opened RequestTable
  import opened Framing
  import opened Pipes
  import opened SidecarProtocol

  function Asks(w: Wire, lines: seq<string>): seq<Id> {
    if lines == [] then []
    else
      (match w.readCommand(lines[0])
       case Some(Ask(id, r)) => if r.kind == ModelList then [id] else []
       case _ => [])
      + Asks(w, lines[1..])
  }

  function Answers(w: Wire, lines: seq<string>): seq<Id> {
    if lines == [] then []
    else
      (match w.readMessage(lines[0])
       case Some(Answer(k, id, _)) => if k == ModelList then [id] else []
       case _ => [])
      + Answers(w, lines[1..])
  }

  function Waiting(chain: seq<Job>): seq<Id> {
    seq(|chain|, i requires 0 <= i < |chain| => chain[i].id)
  }

  lemma {:induction false} AsksAppend(w: Wire, a: seq<string>, b: seq<string>)
    ensures Asks(w, a + b) == Asks(w, a) + Asks(w, b)
  {
    if a == [] {
      assert a + b == b;
    } else {
      assert (a + b)[1..] == a[1..] + b;
      AsksAppend(w, a[1..], b);
    }
  }

  lemma {:induction false} AnswersSnoc(w: Wire, lines: seq<string>, m: Message)
    requires Faithful(w)
    ensures Answers(w, lines + [w.writeMessage(m)])
         == Answers(w, lines) + if m.Answer? && m.kind == ModelList then [m.id] else []
  {
    if lines != [] {
      assert (lines + [w.writeMessage(m)])[1..] == lines[1..] + [w.writeMessage(m)];
      AnswersSnoc(w, lines[1..], m);
    }
  }

  /** The listings are in the chain and nowhere else. */
  predicate Sorted(c: Child) {
    && (forall j :: j in c.chain ==> j.request.kind == ModelList)
    && (forall j :: j in c.jobs ==> j.request.kind != ModelList)
  }

  lemma {:induction false} TakeInAsks(w: Wire, c: Child, lines: seq<string>)
    requires Sorted(c)
    ensures Sorted(TakeIn(w, c, lines))
    ensures Waiting(TakeIn(w, c, lines).chain) == Waiting(c.chain) + Asks(w, lines)
    ensures TakeIn(w, c, lines).input == c.input && TakeIn(w, c, lines).output == c.output
    decreases |lines|
  {
    if lines != [] {
      var d := TakeInLine(w, c, lines[0]);
      TakeInLineAsks(w, c, lines[0]);
      TakeInAsks(w, d, lines[1..]);
      assert Asks(w, lines) == Asks(w, [lines[0]]) + Asks(w, lines[1..]) by {
        AsksAppend(w, [lines[0]], lines[1..]);
        assert lines == [lines[0]] + lines[1..];
      }
      Regroup(Waiting(c.chain), Asks(w, [lines[0]]), Asks(w, lines[1..]));
    }
  }

  lemma TakeInLineAsks(w: Wire, c: Child, line: string)
    requires Sorted(c)
    ensures var d := TakeInLine(w, c, line);
            && Sorted(d) && Waiting(d.chain) == Waiting(c.chain) + Asks(w, [line])
            && d.input == c.input && d.output == c.output
  {
    assert [line][1..] == [] && Asks(w, []) == [];
  }

  /** The listings asked for are those answered, in order, followed by those still waiting in the chain. */
  ghost predicate Ordered(w: Wire, c: Child) {
    && c.input.Valid() && Sorted(c)
    && Asks(w, c.input.Taken()) == Answers(w, c.output.lines) + Waiting(c.chain)
  }

  lemma ReadStaysOrdered(w: Wire, c: Child, n: nat)
    requires Ordered(w, c) && c.input.read + n <= |c.input.Stream()|
    ensures Ordered(w, ReadCommands(w, c, n))
  {
    ReadKeepsValid(c.input, n);
    var arrivals := c.input.Arrivals(n);
    AsksAppend(w, c.input.Taken(), arrivals);
    TakeInAsks(w, c.(input := c.input.Read(n)), arrivals);
    Regroup(Answers(w, c.output.lines), Waiting(c.chain), Asks(w, arrivals));
  }

  lemma Regroup(a: seq<Id>, b: seq<Id>, c: seq<Id>)
    ensures a + b + c == a + (b + c)
  {
  }

  lemma WithoutJobIsSorted(c: Child, j: nat)
    requires Sorted(c) && j < |c.jobs|
    ensures Sorted(c.(jobs := WithoutJob(c.jobs, j)))
  {
    forall job | job in WithoutJob(c.jobs, j)
      ensures job in c.jobs
    {
    }
  }

  lemma AnswerStaysOrdered(w: Wire, c: Child, j: nat, outcome: Outcome)
    requires Faithful(w) && Ordered(w, c) && j < |c.jobs|
    ensures Ordered(w, AnswerJob(w, c, j, outcome))
  {
    assert c.jobs[j] in c.jobs;
    AnswersSnoc(w, c.output.lines, Answer(c.jobs[j].request.kind, c.jobs[j].id, outcome));
    WithoutJobIsSorted(c, j);
  }

  lemma ListingStaysOrdered(w: Wire, c: Child, outcome: Outcome)
    requires Faithful(w) && Ordered(w, c) && c.chain != []
    ensures Ordered(w, AnswerListing(w, c, outcome))
  {
    assert c.chain[0] in c.chain;
    AnswersSnoc(w, c.output.lines, Answer(ModelList, c.chain[0].id, outcome));
    assert Waiting(c.chain) == [c.chain[0].id] + Waiting(c.chain[1..]);
    Regroup(Answers(w, c.output.lines), [c.chain[0].id], Waiting(c.chain[1..]));
  }

  lemma WriteStaysOrdered(w: Wire, c: Child, line: string)
    requires Ordered(w, c) && Framable(line)
    ensures Ordered(w, c.(input := c.input.Write(line)))
  {
    WriteKeepsValid(c.input, line);
  }

  lemma SayStaysOrdered(w: Wire, c: Child, text: string)
    requires Faithful(w) && Ordered(w, c)
    ensures Ordered(w, c.(output := c.output.Write(w.writeMessage(OtherMessage(text)))))
  {
    AnswersSnoc(w, c.output.lines, OtherMessage(text));
  }

  ghost predicate AllOrdered(w: Wire, s: State) {
    forall c :: 0 <= c < |s.children| ==> Ordered(w, s.children[c])
  }

  lemma ReplaceStaysOrdered(w: Wire, s: State, c: nat, child: Child)
    requires AllOrdered(w, s) && c < |s.children| && Ordered(w, child)
    ensures AllOrdered(w, s.(children := s.children[c := child]))
  {
  }

  lemma MainReadsStaysOrdered(w: Wire, s: State, c: nat, n: nat)
    requires AllOrdered(w, s) && SidecarProtocol.Enabled(s, MainReads(c, n))
    ensures AllOrdered(w, Step(w, s, MainReads(c, n)))
  {
    var child := s.children[c];
    var child' := child.(output := child.output.Read(n));
    assert Ordered(w, child) && Ordered(w, child');
    ReplaceStaysOrdered(w, s, c, child');
    HandleAllChildren(w, s.(children := s.children[c := child']), c, child.output.Arrivals(n));
  }

  lemma IssueStaysOrdered(w: Wire, s: State, call: Call, r: Request, writable: bool)
    requires Faithful(w) && AllOrdered(w, s)
    requires SidecarProtocol.Enabled(s, SidecarProtocol.Event.Issue(call, r, writable))
    ensures AllOrdered(w, Issued(w, s, call, r, writable))
  {
    if CanSend(s, writable) {
      var c := s.sup.current.id;
      WriteStaysOrdered(w, s.children[c], w.writeCommand(Ask(call.id, r)));
      ReplaceStaysOrdered(w, s, c, s.children[c].(input := s.children[c].input.Write(w.writeCommand(Ask(call.id, r)))));
    }
  }

  lemma TellStaysOrdered(w: Wire, s: State, text: string, writable: bool)
    requires Faithful(w) && AllOrdered(w, s)
    ensures AllOrdered(w, Told(w, s, text, writable))
  {
    if CanSend(s, writable) {
      var c := s.sup.current.id;
      var line := w.writeCommand(OtherCommand(text));
      WriteStaysOrdered(w, s.children[c], line);
      ReplaceStaysOrdered(w, s, c, s.children[c].(input := s.children[c].input.Write(line)));
    }
  }

  lemma StepStaysOrdered(w: Wire, s: State, e: SidecarProtocol.Event)
    requires Faithful(w) && AllOrdered(w, s) && SidecarProtocol.Enabled(s, e)
    ensures AllOrdered(w, Step(w, s, e))
  {
    match e {
      case Issue(call, r, writable) => IssueStaysOrdered(w, s, call, r, writable);
      case Tell(text, writable) => TellStaysOrdered(w, s, text, writable);
      case SidecarReads(c, n) =>
        ReadStaysOrdered(w, s.children[c], n);
        ReplaceStaysOrdered(w, s, c, ReadCommands(w, s.children[c], n));
      case SidecarAnswers(c, j, outcome) =>
        AnswerStaysOrdered(w, s.children[c], j, outcome);
        ReplaceStaysOrdered(w, s, c, AnswerJob(w, s.children[c], j, outcome));
      case SidecarLists(c, outcome) =>
        ListingStaysOrdered(w, s.children[c], outcome);
        ReplaceStaysOrdered(w, s, c, AnswerListing(w, s.children[c], outcome));
      case SidecarFails(c, j) =>
        WithoutJobIsSorted(s.children[c], j);
        ReplaceStaysOrdered(w, s, c, FailJob(s.children[c], j));
      case SidecarSays(c, text) =>
        var child := s.children[c];
        SayStaysOrdered(w, child, text);
        ReplaceStaysOrdered(w, s, c, child.(output := child.output.Write(w.writeMessage(OtherMessage(text)))));
      case MainReads(c, n) => MainReadsStaysOrdered(w, s, c, n);
      case TimedOut(_, _) =>
      case Lifecycle(l) => assert EMPTY.Valid() && Ordered(w, NEW_CHILD);
    }
  }

  lemma {:induction false} RunStaysOrdered(w: Wire, s: State, es: seq<SidecarProtocol.Event>)
    requires Faithful(w) && AllOrdered(w, s) && SidecarProtocol.Legal(w, s, es)
    ensures AllOrdered(w, SidecarProtocol.Run(w, s, es))
    decreases |es|
  {
    if es != [] {
      StepStaysOrdered(w, s, es[0]);
      RunStaysOrdered(w, Step(w, s, es[0]), es[1..]);
    }
  }

  /** In every run each sidecar answers model listings in the order they were sent to it. */
  lemma ModelListsAreAnsweredInOrder(w: Wire, es: seq<SidecarProtocol.Event>, c: nat)
    requires Faithful(w) && SidecarProtocol.Legal(w, SidecarProtocol.INITIAL, es)
    requires c < |SidecarProtocol.Run(w, SidecarProtocol.INITIAL, es).children|
    ensures var child := SidecarProtocol.Run(w, SidecarProtocol.INITIAL, es).children[c];
            Answers(w, child.output.lines) <= Asks(w, child.input.lines)
  {
    RunStaysOrdered(w, SidecarProtocol.INITIAL, es);
    var child := SidecarProtocol.Run(w, SidecarProtocol.INITIAL, es).children[c];
    var taken := child.input.Taken();
    TakenIsPrefix(child.input);
    assert child.input.lines == taken + child.input.lines[|taken|..];
    AsksAppend(w, taken, child.input.lines[|taken|..]);
  }
}

/** Answers come through: reading one settles its request with the very outcome the sidecar was given, and every request
    a sidecar is ready for can be sent, answered and settled. */
module AnswerReturn {
  import opened Collections
  import opened RequestTable
  import opened Framing
  import opened Pipes
  import opened SidecarProtocol
  import opened SidecarDelivery
  import opened SidecarTraffic
  import opened RequestPlaces
  import PendingFate
  import Sup = Supervisor

  type SystemEvent = SidecarProtocol.Event

  /** The outcome of the first of the lines that answers the request. */
  function FirstAnswer(w: Wire, lines: seq<string>, k: Kind, id: Id): Option<Outcome> {
    if lines == [] then None
    else
      match w.readMessage(lines[0])
      case Some(Answer(k', id', outcome)) =>
        if k' == k && id' == id then Some(outcome) else FirstAnswer(w, lines[1..], k, id)
      case _ => FirstAnswer(w, lines[1..], k, id)
  }

  lemma {:induction false} HandlingKeepsSettled(w: Wire, s: State, c: nat, lines: seq<string>, k: Kind, x: Settlement)
    requires x in TableOf(s.tables, k).settled
    ensures x in TableOf(HandleAll(w, s, c, lines).tables, k).settled
    decreases |lines|
  {
    if lines != [] {
      HandlingKeepsSettled(w, Handle(w, s, c, lines[0]), c, lines[1..], k, x);
    }
  }

  lemma {:induction false} FirstAnswerSettles(w: Wire, s: State, c: nat, lines: seq<string>, k: Kind, id: Id)
    requires IsPending(s.tables, k, id) && FirstAnswer(w, lines, k, id).Some?
    ensures Settlement(id, FirstAnswer(w, lines, k, id).value) in TableOf(HandleAll(w, s, c, lines).tables, k).settled
    decreases |lines|
  {
    var t := Handle(w, s, c, lines[0]);
    if IsAnswer(w, lines[0], id, k) {
      var x := Settlement(id, FirstAnswer(w, lines, k, id).value);
      assert x in TableOf(t.tables, k).settled;
      HandlingKeepsSettled(w, t, c, lines[1..], k, x);
    } else {
      HandleSettles(w, s, c, lines[0], k, id);
      FirstAnswerSettles(w, t, c, lines[1..], k, id);
    }
  }

  lemma {:induction false} OnlyAnswerIsFirst(
      w: Wire, lines: seq<string>, line: string, k: Kind, id: Id, outcome: Outcome)
    requires line in lines && w.readMessage(line) == Some(Answer(k, id, outcome)) && NoRepeats(AnswerIds(w, lines))
    ensures FirstAnswer(w, lines, k, id) == Some(outcome)
  {
    if lines[0] != line {
      assert line in lines[1..];
      AnswerIsAmong(w, lines[1..], line, id);
      FirstIsAnother(w, lines, id);
      OnlyAnswerIsFirst(w, lines[1..], line, k, id, outcome);
    }
  }

  lemma FirstIsAnother(w: Wire, lines: seq<string>, id: Id)
    requires lines != [] && NoRepeats(AnswerIds(w, lines)) && id in AnswerIds(w, lines[1..])
    ensures id !in AnswerId(w, lines[0]) && NoRepeats(AnswerIds(w, lines[1..]))
  {
    var first, rest := AnswerId(w, lines[0]), AnswerIds(w, lines[1..]);
    var all := first + rest;
    assert AnswerIds(w, lines) == all;
    assert forall i :: 0 <= i < |rest| ==> rest[i] == all[|first| + i];
    var i :| 0 <= i < |rest| && rest[i] == id;
    assert first != [] ==> all[0] != all[|first| + i];
  }

  lemma {:induction false} AnswerIsAmong(w: Wire, lines: seq<string>, line: string, id: Id)
    requires line in lines && AnswerId(w, line) == [id]
    ensures id in AnswerIds(w, lines)
  {
    if lines[0] != line {
      AnswerIsAmong(w, lines[1..], line, id);
    }
  }

  lemma {:induction false} AnswerIdsOfPart(w: Wire, a: seq<string>, b: seq<string>)
    ensures AnswerIds(w, a + b) == AnswerIds(w, a) + AnswerIds(w, b)
  {
    if a == [] {
      assert a + b == b;
    } else {
      assert (a + b)[1..] == a[1..] + b;
      AnswerIdsOfPart(w, a[1..], b);
    }
  }

  lemma PartHasNoRepeats(w: Wire, front: seq<string>, part: seq<string>, back: seq<string>)
    requires NoRepeats(AnswerIds(w, front + part + back))
    ensures NoRepeats(AnswerIds(w, part))
  {
    AnswerIdsOfPart(w, front + part, back);
    AnswerIdsOfPart(w, front, part);
    MiddleHasNoRepeats(AnswerIds(w, front), AnswerIds(w, part), AnswerIds(w, back));
  }

  lemma MiddleHasNoRepeats(a: seq<Id>, b: seq<Id>, c: seq<Id>)
    requires NoRepeats(a + b + c)
    ensures NoRepeats(b)
  {
    forall i, j | 0 <= i < j < |b|
      ensures b[i] != b[j]
    {
      assert (a + b + c)[|a| + i] == b[i] && (a + b + c)[|a| + j] == b[j];
    }
  }

  /** In every run, reading the answer to a pending request settles it with exactly the outcome the sidecar was given
      for it. */
  lemma GivenOutcomeSettles(
      w: Wire, es: seq<SystemEvent>, s: State, c: nat, n: nat, k: Kind, id: Id, outcome: Outcome)
    requires Faithful(w) && SidecarProtocol.Legal(w, SidecarProtocol.INITIAL, es)
    requires s == SidecarProtocol.Run(w, SidecarProtocol.INITIAL, es)
    requires SidecarProtocol.Enabled(s, MainReads(c, n)) && IsPending(s.tables, k, id)
    requires w.writeMessage(Answer(k, id, outcome)) in s.children[c].output.Arrivals(n)
    ensures Answer(k, id, outcome) in AllSaid(w, SidecarProtocol.INITIAL, es, c)
    ensures Settlement(id, outcome) in TableOf(Step(w, s, MainReads(c, n)).tables, k).settled
  {
    SidecarProtocol.RunKeepsInv(w, SidecarProtocol.INITIAL, es);
    RunStaysInOnePlace(w, SidecarProtocol.INITIAL, es);
    assert ChildOk(w, s.asked, s.children[c]);
    ArrivalsWereWritten(s.children[c].output, n);
    WrittenWasSaid(w, es, s, c, Answer(k, id, outcome));
    AnswersDoNotRepeat(w, s, c);
    ArrivedAnswerSettles(w, s, c, n, k, id, outcome);
  }

  lemma ArrivedAnswerSettles(w: Wire, s: State, c: nat, n: nat, k: Kind, id: Id, outcome: Outcome)
    requires Faithful(w) && SidecarProtocol.Enabled(s, MainReads(c, n)) && IsPending(s.tables, k, id)
    requires s.children[c].output.Valid() && NoRepeats(AnswerIds(w, s.children[c].output.lines))
    requires w.writeMessage(Answer(k, id, outcome)) in s.children[c].output.Arrivals(n)
    ensures Settlement(id, outcome) in TableOf(Step(w, s, MainReads(c, n)).tables, k).settled
  {
    var child := s.children[c];
    var arrivals := child.output.Arrivals(n);
    OnlyArrival(w, child.output, n, k, id, outcome);
    FirstAnswerSettles(w, s.(children := s.children[c := child.(output := child.output.Read(n))]), c, arrivals, k, id);
  }

  lemma OnlyArrival(w: Wire, p: Pipe, n: nat, k: Kind, id: Id, outcome: Outcome)
    requires Faithful(w) && p.Valid() && p.read + n <= |p.Stream()| && NoRepeats(AnswerIds(w, p.lines))
    requires w.writeMessage(Answer(k, id, outcome)) in p.Arrivals(n)
    ensures FirstAnswer(w, p.Arrivals(n), k, id) == Some(outcome)
  {
    ArrivalsHaveNoRepeats(w, p, n);
    OnlyAnswerIsFirst(w, p.Arrivals(n), w.writeMessage(Answer(k, id, outcome)), k, id, outcome);
  }

  lemma ArrivalsHaveNoRepeats(w: Wire, p: Pipe, n: nat)
    requires p.Valid() && p.read + n <= |p.Stream()| && NoRepeats(AnswerIds(w, p.lines))
    ensures NoRepeats(AnswerIds(w, p.Arrivals(n)))
  {
    var i, arrivals := |p.Taken()|, p.Arrivals(n);
    ArrivalsWereWritten(p, n);
    assert p.lines == p.lines[..i] + arrivals + p.lines[i + |arrivals|..];
    PartHasNoRepeats(w, p.lines[..i], arrivals, p.lines[i + |arrivals|..]);
  }

  lemma WrittenWasSaid(w: Wire, es: seq<SystemEvent>, s: State, c: nat, m: Message)
    requires Faithful(w) && SidecarProtocol.Legal(w, SidecarProtocol.INITIAL, es)
    requires s == SidecarProtocol.Run(w, SidecarProtocol.INITIAL, es) && w.writeMessage(m) in Outputs(s, c)
    ensures m in AllSaid(w, SidecarProtocol.INITIAL, es, c)
  {
    EachChildSaysItsAnswers(w, SidecarProtocol.INITIAL, es, c);
    var said := AllSaid(w, SidecarProtocol.INITIAL, es, c);
    var i :| 0 <= i < |Written(w, said)| && Written(w, said)[i] == w.writeMessage(m);
    assert w.readMessage(w.writeMessage(said[i])) == Some(said[i]);
    assert w.readMessage(w.writeMessage(m)) == Some(m);
  }

  // ---------------------------------------------------------------- there and back

  /** A pipe read to its end. */
  ghost predicate ReadOut(p: Pipe) {
    p.Valid() && p.read == |p.Stream()|
  }

  /** What is still to be read of a pipe. */
  function Unread(p: Pipe): nat
    requires p.read <= |p.Stream()|
  {
    |p.Stream()| - p.read
  }

  lemma NextLineArrives(p: Pipe, line: string)
    requires ReadOut(p) && Framable(line)
    ensures p.Write(line).read <= |p.Write(line).Stream()|
    ensures p.Write(line).Arrivals(Unread(p.Write(line))) == [line]
  {
    var q := p.Write(line);
    WriteKeepsValid(p, line);
    TakenIsPrefix(p);
    ReadKeepsValid(q, Unread(q));
    TakenIsPrefix(q.Read(Unread(q)));
    assert p.lines + q.Arrivals(Unread(q)) == p.lines + [line];
    assert (p.lines + q.Arrivals(Unread(q)))[|p.lines|..] == (p.lines + [line])[|p.lines|..];
  }

  /** The child that has taken in the request, and is about to answer it. */
  lemma RequestIsTakenIn(w: Wire, c: Child, id: Id, r: Request)
    requires Faithful(w) && ReadOut(c.input)
    ensures var sent := Sent(w, c, Ask(id, r));
            && sent.input.read <= |sent.input.Stream()|
            && var d := ReadCommands(w, sent, Unread(sent.input));
               && d.jobs == (if r.kind == ModelList then c.jobs else c.jobs + [Job(id, r)])
               && d.chain == (if r.kind == ModelList then c.chain + [Job(id, r)] else c.chain)
               && d.output == c.output
  {
    var line := w.writeCommand(Ask(id, r));
    var sent := Sent(w, c, Ask(id, r));
    NextLineArrives(c.input, line);
    var d := sent.(input := sent.input.Read(Unread(sent.input)));
    assert [line][1..] == [];
    assert TakeIn(w, d, [line]) == TakeIn(w, TakeInLine(w, d, line), []);
  }

  /** How a sidecar answers the request it took in last. */
  function AnswerEvent(s: State, c: nat, k: Kind, outcome: Outcome): SystemEvent
    requires c < |s.children| && (k != ModelList ==> s.children[c].jobs != [])
  {
    if k == ModelList then SidecarLists(c, outcome) else SidecarAnswers(c, |s.children[c].jobs| - 1, outcome)
  }

  /** From any state with a child that can be written to, has read and said everything so far, and has no listing
      waiting, a request can be sent, taken in, answered with any outcome, and its answer read; the request is then
      settled with it. */
  lemma RequestsCanBeAnswered(w: Wire, s: State, c: nat, call: Call, r: Request, outcome: Outcome)
      returns (es: seq<SystemEvent>)
    requires Faithful(w) && SidecarProtocol.Enabled(s, SidecarProtocol.Event.Issue(call, r, true))
    requires s.sup.current == Sup.Child(c) && c < |s.children|
    requires ReadOut(s.children[c].input) && ReadOut(s.children[c].output) && s.children[c].chain == []
    ensures |es| == 4 && es[0] == SidecarProtocol.Event.Issue(call, r, true) && es[1].SidecarReads?
    ensures (es[2].SidecarAnswers? || es[2].SidecarLists?) && es[2].outcome == outcome && es[3].MainReads?
    ensures SidecarProtocol.Legal(w, s, es)
    ensures Settlement(call.id, outcome) in TableOf(SidecarProtocol.Run(w, s, es).tables, r.kind).settled
  {
    var s1, read, s2 := SentAndTakenIn(w, s, c, call, r);
    var answer, s3, hear, s4 := AnsweredAndHeard(w, s2, c, call.id, r, outcome);
    RunOfFour(w, [s, s1, s2, s3, s4], [SidecarProtocol.Event.Issue(call, r, true), read, answer, hear]);
    es := [SidecarProtocol.Event.Issue(call, r, true), read, answer, hear];
  }

  /** The request just taken in by child `c` is the last of its jobs, or its only listing. */
  predicate TakenLast(s: State, c: nat, id: Id, r: Request) {
    && c < |s.children|
    && var child := s.children[c];
       if r.kind == ModelList then child.chain == [Job(id, r)]
       else child.jobs != [] && child.jobs[|child.jobs| - 1] == Job(id, r)
  }

  lemma SentAndTakenIn(w: Wire, s: State, c: nat, call: Call, r: Request)
      returns (s1: State, read: SystemEvent, s2: State)
    requires Faithful(w) && SidecarProtocol.Enabled(s, SidecarProtocol.Event.Issue(call, r, true))
    requires s.sup.current == Sup.Child(c) && c < |s.children|
    requires ReadOut(s.children[c].input) && s.children[c].chain == []
    ensures Leads(w, s, SidecarProtocol.Event.Issue(call, r, true), s1) && read.SidecarReads? && Leads(w, s1, read, s2)
    ensures TakenLast(s2, c, call.id, r) && s2.children[c].output == s.children[c].output
    ensures IsPending(s2.tables, r.kind, call.id)
  {
    s1 := Issued(w, s, call, r, true);
    PendingFate.AskedIsPending(w, s, call, r);
    RequestIsTakenIn(w, s.children[c], call.id, r);
    assert s1.children[c] == Sent(w, s.children[c], Ask(call.id, r));
    read := SidecarReads(c, Unread(s1.children[c].input));
    s2 := Step(w, s1, read);
  }

  lemma AnsweredAndHeard(w: Wire, s: State, c: nat, id: Id, r: Request, outcome: Outcome)
      returns (answer: SystemEvent, s1: State, hear: SystemEvent, s2: State)
    requires Faithful(w) && TakenLast(s, c, id, r) && ReadOut(s.children[c].output) && IsPending(s.tables, r.kind, id)
    ensures (answer.SidecarAnswers? || answer.SidecarLists?) && answer.outcome == outcome && Leads(w, s, answer, s1)
    ensures hear.MainReads? && Leads(w, s1, hear, s2)
    ensures Settlement(id, outcome) in TableOf(s2.tables, r.kind).settled
  {
    answer := AnswerEvent(s, c, r.kind, outcome);
    AnswerIsGiven(w, s, c, id, r, outcome);
    s1 := Step(w, s, answer);
    var line := w.writeMessage(Answer(r.kind, id, outcome));
    NextLineArrives(s.children[c].output, line);
    hear := MainReads(c, Unread(s1.children[c].output));
    AnswerIsHeard(w, s1, c, line, r.kind, id, outcome);
    s2 := Step(w, s1, hear);
  }

  ghost predicate Leads(w: Wire, s: State, e: SystemEvent, t: State) {
    SidecarProtocol.Enabled(s, e) && Step(w, s, e) == t
  }

  lemma RunOfFour(w: Wire, s: seq<State>, e: seq<SystemEvent>)
    requires |s| == 5 && |e| == 4 && forall i :: 0 <= i < 4 ==> Leads(w, s[i], e[i], s[i + 1])
    ensures SidecarProtocol.Legal(w, s[0], e) && SidecarProtocol.Run(w, s[0], e) == s[4]
  {
    assert Leads(w, s[0], e[0], s[1]) && Leads(w, s[1], e[1], s[2]);
    assert Leads(w, s[2], e[2], s[3]) && Leads(w, s[3], e[3], s[4]);
    PendingFate.Unfolded(w, s[3], e[3], []);
    PendingFate.Unfolded(w, s[2], e[2], [e[3]] + []);
    PendingFate.Unfolded(w, s[1], e[1], [e[2]] + ([e[3]] + []));
    PendingFate.Unfolded(w, s[0], e[0], [e[1]] + ([e[2]] + ([e[3]] + [])));
    assert e == [e[0]] + ([e[1]] + ([e[2]] + ([e[3]] + [])));
  }

  lemma AnswerIsGiven(w: Wire, s: State, c: nat, id: Id, r: Request, outcome: Outcome)
    requires TakenLast(s, c, id, r)
    ensures var e := AnswerEvent(s, c, r.kind, outcome);
            && SidecarProtocol.Enabled(s, e) && Step(w, s, e).tables == s.tables
            && |Step(w, s, e).children| == |s.children|
            && Step(w, s, e).children[c].output
               == s.children[c].output.Write(w.writeMessage(Answer(r.kind, id, outcome)))
  {
  }

  lemma AnswerIsHeard(w: Wire, s: State, c: nat, line: string, k: Kind, id: Id, outcome: Outcome)
    requires Faithful(w) && c < |s.children| && IsPending(s.tables, k, id)
    requires s.children[c].output.read <= |s.children[c].output.Stream()|
    requires s.children[c].output.Arrivals(Unread(s.children[c].output)) == [line]
    requires line == w.writeMessage(Answer(k, id, outcome))
    ensures Settlement(id, outcome)
         in TableOf(Step(w, s, MainReads(c, Unread(s.children[c].output))).tables, k).settled
  {
    var p := s.children[c].output;
    assert FirstAnswer(w, [line], k, id) == Some(outcome);
    var child := s.children[c].(output := p.Read(Unread(p)));
    FirstAnswerSettles(w, s.(children := s.children[c := child]), c, [line], k, id);
  }
}

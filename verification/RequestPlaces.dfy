/** Every request is in one place: it is sent to one sidecar at most, which has it just once, unread, in hand, answered
    or given up; so it is answered at most once. */
module RequestPlaces {
  import opened Collections
  import opened RequestTable
  import opened Pipes
  import opened SidecarProtocol
  import opened SidecarDelivery
  import Sup = Supervisor

  type SystemEvent = SidecarProtocol.Event

  function AskIds(w: Wire, lines: seq<string>): seq<Id> {
    if lines == [] then [] else AskId(w, lines[0]) + AskIds(w, lines[1..])
  }

  function AskId(w: Wire, line: string): seq<Id> {
    match w.readCommand(line)
    case Some(Ask(id, _)) => [id]
    case _ => []
  }

  function AnswerIds(w: Wire, lines: seq<string>): seq<Id> {
    if lines == [] then [] else AnswerId(w, lines[0]) + AnswerIds(w, lines[1..])
  }

  function AnswerId(w: Wire, line: string): seq<Id> {
    match w.readMessage(line)
    case Some(Answer(_, id, _)) => [id]
    case _ => []
  }

  function JobIds(jobs: seq<Job>): seq<Id> {
    seq(|jobs|, i requires 0 <= i < |jobs| => jobs[i].id)
  }

  lemma {:induction false} AskIdsAppend(w: Wire, a: seq<string>, b: seq<string>)
    ensures AskIds(w, a + b) == AskIds(w, a) + AskIds(w, b)
  {
    if a == [] {
      assert a + b == b;
    } else {
      assert (a + b)[1..] == a[1..] + b;
      AskIdsAppend(w, a[1..], b);
    }
  }

  lemma {:induction false} AnswerIdsSnoc(w: Wire, lines: seq<string>, line: string)
    ensures AnswerIds(w, lines + [line]) == AnswerIds(w, lines) + AnswerId(w, line)
  {
    if lines == [] {
      assert lines + [line] == [line] && [line][1..] == [];
    } else {
      assert (lines + [line])[1..] == lines[1..] + [line];
      AnswerIdsSnoc(w, lines[1..], line);
    }
  }

  /** The requests a child took in: those it still has, those it answered, and those its handlers gave up. */
  ghost predicate Accounted(w: Wire, c: Child) {
    && c.input.Valid()
    && multiset(AskIds(w, c.input.Taken()))
       == multiset(JobIds(c.jobs)) + multiset(JobIds(c.chain))
          + multiset(AnswerIds(w, c.output.lines)) + multiset(c.failed)
  }

  function Open(c: Child): multiset<Id> {
    multiset(JobIds(c.jobs)) + multiset(JobIds(c.chain))
  }

  lemma OneMoreJob(jobs: seq<Job>, job: Job)
    ensures multiset(JobIds(jobs + [job])) == multiset(JobIds(jobs)) + multiset{job.id}
  {
    assert JobIds(jobs + [job]) == JobIds(jobs) + [job.id];
  }

  lemma OneJobLess(jobs: seq<Job>, j: nat)
    requires j < |jobs|
    ensures multiset(JobIds(jobs)) == multiset(JobIds(WithoutJob(jobs, j))) + multiset{jobs[j].id}
  {
    var ids := JobIds(jobs);
    assert ids == ids[..j] + [ids[j]] + ids[j + 1..];
    assert JobIds(WithoutJob(jobs, j)) == ids[..j] + ids[j + 1..];
  }

  lemma {:induction false} TakeInOpens(w: Wire, c: Child, lines: seq<string>)
    ensures Open(TakeIn(w, c, lines)) == Open(c) + multiset(AskIds(w, lines))
    decreases |lines|
  {
    if lines != [] {
      TakeInLineOpens(w, c, lines[0]);
      TakeInOpens(w, TakeInLine(w, c, lines[0]), lines[1..]);
    }
  }

  lemma TakeInLineOpens(w: Wire, c: Child, line: string)
    ensures Open(TakeInLine(w, c, line)) == Open(c) + multiset(AskId(w, line))
  {
    match w.readCommand(line) {
      case Some(Ask(id, r)) =>
        OneMoreJob(c.jobs, Job(id, r));
        OneMoreJob(c.chain, Job(id, r));
      case _ =>
    }
  }

  lemma ReadingAccounts(w: Wire, c: Child, n: nat)
    requires Accounted(w, c) && c.input.read + n <= |c.input.Stream()|
    ensures Accounted(w, ReadCommands(w, c, n))
  {
    ReadKeepsValid(c.input, n);
    var arrivals, d := c.input.Arrivals(n), c.(input := c.input.Read(n));
    AskIdsAppend(w, c.input.Taken(), arrivals);
    TakeInOpens(w, d, arrivals);
    TakeInTouchesOnlyJobs(w, d, arrivals);
    assert Open(d) == Open(c);
  }

  /** Answering moves one request from the child's hands to its output. */
  lemma AnsweringAccounts(w: Wire, c: Child, d: Child, job: Job, outcome: Outcome)
    requires Faithful(w) && Accounted(w, c)
    requires d.input == c.input && d.output == c.output && d.failed == c.failed
    requires Open(c) == Open(d) + multiset{job.id}
    ensures Accounted(w, Respond(w, d, job, outcome))
  {
    AnswerIdsSnoc(w, c.output.lines, w.writeMessage(Answer(job.request.kind, job.id, outcome)));
    assert Open(Respond(w, d, job, outcome)) == Open(d);
  }

  lemma FailingAccounts(w: Wire, c: Child, j: nat)
    requires Accounted(w, c) && j < |c.jobs| && NoRepeats(AskIds(w, c.input.Taken()))
    ensures Accounted(w, FailJob(c, j))
  {
    var id := c.jobs[j].id;
    OneJobLess(c.jobs, j);
    OnceEach(AskIds(w, c.input.Taken()), id);
    assert id !in c.failed;
    assert multiset(c.failed + {id}) == multiset(c.failed) + multiset{id};
  }

  lemma {:induction false} OnceEach(ids: seq<Id>, id: Id)
    requires NoRepeats(ids)
    ensures multiset(ids)[id] <= 1
  {
    if ids != [] {
      var rest := ids[1..];
      assert forall i, j :: 0 <= i < j < |rest| ==> rest[i] == ids[i + 1] && rest[j] == ids[j + 1];
      OnceEach(rest, id);
      assert ids == [ids[0]] + rest;
      assert ids[0] !in rest;
    }
  }

  lemma SayingAccounts(w: Wire, c: Child, text: string)
    requires Faithful(w) && Accounted(w, c)
    ensures Accounted(w, c.(output := c.output.Write(w.writeMessage(OtherMessage(text)))))
  {
    AnswerIdsSnoc(w, c.output.lines, w.writeMessage(OtherMessage(text)));
  }

  ghost predicate ChildInOrder(w: Wire, asked: map<Id, Request>, c: Child) {
    && Accounted(w, c) && NoRepeats(AskIds(w, c.input.lines))
    && forall id :: id in AskIds(w, c.input.lines) ==> id in asked
  }

  predicate Apart(w: Wire, c: Child, d: Child) {
    forall id :: id in AskIds(w, c.input.lines) ==> id !in AskIds(w, d.input.lines)
  }

  /** Every request was sent to one child at most, once, and every child accounts for what it took in. */
  ghost predicate InOnePlace(w: Wire, s: State) {
    && (forall c :: 0 <= c < |s.children| ==> ChildInOrder(w, s.asked, s.children[c]))
    && (forall c, d :: 0 <= c < d < |s.children| ==> Apart(w, s.children[c], s.children[d]))
  }

  lemma TakenIsPart(w: Wire, c: Child)
    requires c.input.Valid()
    ensures AskIds(w, c.input.Taken()) <= AskIds(w, c.input.lines)
  {
    var taken := c.input.Taken();
    TakenIsPrefix(c.input);
    assert c.input.lines == taken + c.input.lines[|taken|..];
    AskIdsAppend(w, taken, c.input.lines[|taken|..]);
  }

  /** A child that was written the same and accounts for what it took in stays in order. */
  lemma SameLinesStayInOrder(w: Wire, asked: map<Id, Request>, c: Child, d: Child)
    requires ChildInOrder(w, asked, c) && Accounted(w, d) && d.input.lines == c.input.lines
    ensures ChildInOrder(w, asked, d)
  {
  }

  lemma ReadsStaysInOrder(w: Wire, asked: map<Id, Request>, c: Child, n: nat)
    requires ChildInOrder(w, asked, c) && c.input.read + n <= |c.input.Stream()|
    ensures ChildInOrder(w, asked, ReadCommands(w, c, n)) && ReadCommands(w, c, n).input.lines == c.input.lines
  {
    ReadingAccounts(w, c, n);
    TakeInTouchesOnlyJobs(w, c.(input := c.input.Read(n)), c.input.Arrivals(n));
    SameLinesStayInOrder(w, asked, c, ReadCommands(w, c, n));
  }

  lemma AnswersStaysInOrder(w: Wire, asked: map<Id, Request>, c: Child, j: nat, outcome: Outcome)
    requires Faithful(w) && ChildInOrder(w, asked, c) && j < |c.jobs|
    ensures ChildInOrder(w, asked, AnswerJob(w, c, j, outcome))
    ensures AnswerJob(w, c, j, outcome).input == c.input
  {
    OneJobLess(c.jobs, j);
    AnsweringAccounts(w, c, c.(jobs := WithoutJob(c.jobs, j)), c.jobs[j], outcome);
    SameLinesStayInOrder(w, asked, c, AnswerJob(w, c, j, outcome));
  }

  lemma FirstInChain(c: Child)
    requires c.chain != []
    ensures Open(c) == Open(c.(chain := c.chain[1..])) + multiset{c.chain[0].id}
  {
    assert JobIds(c.chain) == [c.chain[0].id] + JobIds(c.chain[1..]);
  }

  lemma ListsStaysInOrder(w: Wire, asked: map<Id, Request>, c: Child, outcome: Outcome)
    requires Faithful(w) && ChildInOrder(w, asked, c) && c.chain != []
    ensures ChildInOrder(w, asked, AnswerListing(w, c, outcome)) && AnswerListing(w, c, outcome).input == c.input
  {
    FirstInChain(c);
    AnsweringAccounts(w, c, c.(chain := c.chain[1..]), c.chain[0], outcome);
    SameLinesStayInOrder(w, asked, c, AnswerListing(w, c, outcome));
  }

  lemma FailsStaysInOrder(w: Wire, asked: map<Id, Request>, c: Child, j: nat)
    requires ChildInOrder(w, asked, c) && j < |c.jobs|
    ensures ChildInOrder(w, asked, FailJob(c, j)) && FailJob(c, j).input == c.input
  {
    TakenIsPart(w, c);
    FailingAccounts(w, c, j);
    SameLinesStayInOrder(w, asked, c, FailJob(c, j));
  }

  lemma SaysStaysInOrder(w: Wire, asked: map<Id, Request>, c: Child, text: string)
    requires Faithful(w) && ChildInOrder(w, asked, c)
    ensures ChildInOrder(w, asked, c.(output := c.output.Write(w.writeMessage(OtherMessage(text)))))
  {
    SayingAccounts(w, c, text);
    SameLinesStayInOrder(w, asked, c, c.(output := c.output.Write(w.writeMessage(OtherMessage(text)))));
  }

  lemma ReplaceStaysInOnePlace(w: Wire, s: State, c: nat, child: Child)
    requires InOnePlace(w, s) && c < |s.children|
    requires ChildInOrder(w, s.asked, child) && child.input.lines == s.children[c].input.lines
    ensures InOnePlace(w, s.(children := s.children[c := child]))
  {
    var t := s.(children := s.children[c := child]);
    forall a, b | 0 <= a < b < |t.children|
      ensures Apart(w, t.children[a], t.children[b])
    {
      assert Apart(w, s.children[a], s.children[b]);
    }
  }

  /** Writing a command under a new id, or one that is no request. */
  lemma SentStaysInOrder(w: Wire, asked: map<Id, Request>, asked': map<Id, Request>, c: Child, command: Command)
    requires Faithful(w) && ChildInOrder(w, asked, c)
    requires asked' == if command.Ask? then asked[command.id := command.request] else asked
    requires command.Ask? ==> command.id !in asked
    ensures ChildInOrder(w, asked', Sent(w, c, command))
    ensures AskIds(w, Sent(w, c, command).input.lines)
            == AskIds(w, c.input.lines) + if command.Ask? then [command.id] else []
  {
    var line := w.writeCommand(command);
    WriteKeepsValid(c.input, line);
    AskIdsAppend(w, c.input.lines, [line]);
    assert [line][1..] == [] && AskIds(w, [line]) == AskId(w, line) + AskIds(w, []);
    assert AskIds(w, [line]) == AskId(w, line);
  }

  lemma SameChildrenStayInOnePlace(w: Wire, s: State, t: State)
    requires InOnePlace(w, s) && t.children == s.children && forall id :: id in s.asked ==> id in t.asked
    ensures InOnePlace(w, t)
  {
    forall d | 0 <= d < |t.children|
      ensures ChildInOrder(w, t.asked, t.children[d])
    {
      assert ChildInOrder(w, s.asked, s.children[d]);
    }
  }

  lemma SendingStaysInOnePlace(w: Wire, s: State, t: State, c: nat, command: Command)
    requires Faithful(w) && InOnePlace(w, s) && c < |s.children| && (command.Ask? ==> command.id !in s.asked)
    requires t.children == s.children[c := Sent(w, s.children[c], command)]
    requires t.asked == if command.Ask? then s.asked[command.id := command.request] else s.asked
    ensures InOnePlace(w, t)
  {
    var s1 := s.(asked := t.asked);
    SameChildrenStayInOnePlace(w, s, s1);
    assert ChildInOrder(w, s.asked, s.children[c]);
    SentStaysInOrder(w, s.asked, t.asked, s.children[c], command);
    AllInOrder(w, s1, t, c);
    AllApart(w, s, t, c, if command.Ask? then [command.id] else []);
  }

  lemma AllInOrder(w: Wire, s: State, t: State, c: nat)
    requires InOnePlace(w, s) && t.asked == s.asked && c < |s.children| == |t.children|
    requires t.children == s.children[c := t.children[c]] && ChildInOrder(w, s.asked, t.children[c])
    ensures forall d :: 0 <= d < |t.children| ==> ChildInOrder(w, t.asked, t.children[d])
  {
    forall d | 0 <= d < |t.children|
      ensures ChildInOrder(w, t.asked, t.children[d])
    {
      assert d != c ==> ChildInOrder(w, s.asked, s.children[d]);
    }
  }

  /** Ids never asked before can be sent to any one child. */
  lemma AllApart(w: Wire, s: State, t: State, c: nat, news: seq<Id>)
    requires InOnePlace(w, s) && c < |s.children| == |t.children| && t.children == s.children[c := t.children[c]]
    requires AskIds(w, t.children[c].input.lines) == AskIds(w, s.children[c].input.lines) + news
    requires forall id :: id in news ==> id !in s.asked
    ensures forall a, b :: 0 <= a < b < |t.children| ==> Apart(w, t.children[a], t.children[b])
  {
    forall a, b | 0 <= a < b < |t.children|
      ensures Apart(w, t.children[a], t.children[b])
    {
      assert ChildInOrder(w, s.asked, s.children[a]) && ChildInOrder(w, s.asked, s.children[b]);
      SendingStaysApart(w, s.children[a], s.children[b], t.children[a], t.children[b], news);
    }
  }

  lemma SendingStaysApart(w: Wire, c: Child, d: Child, c': Child, d': Child, news: seq<Id>)
    requires Apart(w, c, d)
    requires forall id :: id in news ==> id !in AskIds(w, c.input.lines) && id !in AskIds(w, d.input.lines)
    requires AskIds(w, c'.input.lines) == AskIds(w, c.input.lines) + news || c' == c
    requires AskIds(w, d'.input.lines) == AskIds(w, d.input.lines) + news || d' == d
    requires c' == c || d' == d
    ensures Apart(w, c', d')
  {
  }

  lemma NewChildIsInOrder(w: Wire, asked: map<Id, Request>)
    ensures ChildInOrder(w, asked, NEW_CHILD) && AskIds(w, NEW_CHILD.input.lines) == []
  {
    assert EMPTY.Valid() && EMPTY.Taken() == [] && JobIds([]) == [];
  }

  lemma SpawningStaysInOnePlace(w: Wire, s: State)
    requires InOnePlace(w, s)
    ensures InOnePlace(w, s.(children := s.children + [NEW_CHILD]))
  {
    NewChildIsInOrder(w, s.asked);
    var t := s.(children := s.children + [NEW_CHILD]);
    forall c | 0 <= c < |t.children|
      ensures ChildInOrder(w, t.asked, t.children[c])
    {
      assert c < |s.children| ==> t.children[c] == s.children[c];
    }
    forall a, b | 0 <= a < b < |t.children|
      ensures Apart(w, t.children[a], t.children[b])
    {
      assert b < |s.children| ==> Apart(w, s.children[a], s.children[b]);
    }
  }

  lemma LifecycleStaysInOnePlace(w: Wire, s: State, e: Sup.Event)
    requires InOnePlace(w, s)
    ensures InOnePlace(w, LifecycleStep(s, e))
  {
    SpawningStaysInOnePlace(w, s);
    var t := LifecycleStep(s, e);
    var spawned := s.(children := s.children + [NEW_CHILD]);
    SameChildrenStayInOnePlace(w, if |t.children| > |s.children| then spawned else s, t);
  }

  lemma MainReadsStaysInOnePlace(w: Wire, s: State, c: nat, n: nat)
    requires InOnePlace(w, s) && SidecarProtocol.Enabled(s, MainReads(c, n))
    ensures InOnePlace(w, Step(w, s, MainReads(c, n)))
  {
    var child := s.children[c];
    var child' := child.(output := child.output.Read(n));
    var s1 := s.(children := s.children[c := child']);
    HandleAllChildren(w, s1, c, child.output.Arrivals(n));
    assert Accounted(w, child');
    SameLinesStayInOrder(w, s.asked, child, child');
    ReplaceStaysInOnePlace(w, s, c, child');
    SameChildrenStayInOnePlace(w, s1, Step(w, s, MainReads(c, n)));
  }

  lemma IssueStaysInOnePlace(w: Wire, s: State, call: Call, r: Request, writable: bool)
    requires Faithful(w) && InOnePlace(w, s)
    requires SidecarProtocol.Enabled(s, SidecarProtocol.Event.Issue(call, r, writable))
    ensures InOnePlace(w, Issued(w, s, call, r, writable))
  {
    var t := Issued(w, s, call, r, writable);
    if CanSend(s, writable) {
      SendingStaysInOnePlace(w, s, t, s.sup.current.id, Ask(call.id, r));
    } else {
      SameChildrenStayInOnePlace(w, s, t);
    }
  }

  lemma TellStaysInOnePlace(w: Wire, s: State, text: string, writable: bool)
    requires Faithful(w) && InOnePlace(w, s)
    ensures InOnePlace(w, Told(w, s, text, writable))
  {
    if CanSend(s, writable) {
      SendingStaysInOnePlace(w, s, Told(w, s, text, writable), s.sup.current.id, OtherCommand(text));
    }
  }

  lemma StepStaysInOnePlace(w: Wire, s: State, e: SystemEvent)
    requires Faithful(w) && InOnePlace(w, s) && SidecarProtocol.Enabled(s, e)
    ensures InOnePlace(w, Step(w, s, e))
  {
    match e {
      case Issue(call, r, writable) => IssueStaysInOnePlace(w, s, call, r, writable);
      case Tell(text, writable) => TellStaysInOnePlace(w, s, text, writable);
      case SidecarReads(c, n) =>
        ReadsStaysInOrder(w, s.asked, s.children[c], n);
        ReplaceStaysInOnePlace(w, s, c, ReadCommands(w, s.children[c], n));
      case SidecarAnswers(c, j, outcome) =>
        AnswersStaysInOrder(w, s.asked, s.children[c], j, outcome);
        ReplaceStaysInOnePlace(w, s, c, AnswerJob(w, s.children[c], j, outcome));
      case SidecarLists(c, outcome) =>
        ListsStaysInOrder(w, s.asked, s.children[c], outcome);
        ReplaceStaysInOnePlace(w, s, c, AnswerListing(w, s.children[c], outcome));
      case SidecarFails(c, j) =>
        FailsStaysInOrder(w, s.asked, s.children[c], j);
        ReplaceStaysInOnePlace(w, s, c, FailJob(s.children[c], j));
      case SidecarSays(c, text) =>
        var child := s.children[c];
        SaysStaysInOrder(w, s.asked, child, text);
        ReplaceStaysInOnePlace(w, s, c, child.(output := child.output.Write(w.writeMessage(OtherMessage(text)))));
      case MainReads(c, n) => MainReadsStaysInOnePlace(w, s, c, n);
      case TimedOut(_, _) => SameChildrenStayInOnePlace(w, s, Step(w, s, e));
      case Lifecycle(l) => LifecycleStaysInOnePlace(w, s, l);
    }
  }

  /** Over any run, each request is sent to one child at most, which has it once: unread, in hand, answered or given up.
      */
  lemma {:induction false} RunStaysInOnePlace(w: Wire, s: State, es: seq<SystemEvent>)
    requires Faithful(w) && InOnePlace(w, s) && SidecarProtocol.Legal(w, s, es)
    ensures InOnePlace(w, SidecarProtocol.Run(w, s, es))
    decreases |es|
  {
    if es != [] {
      StepStaysInOnePlace(w, s, es[0]);
      RunStaysInOnePlace(w, Step(w, s, es[0]), es[1..]);
    }
  }

  lemma {:induction false} AtMostOnceHasNoRepeats(ids: seq<Id>)
    requires forall id :: multiset(ids)[id] <= 1
    ensures NoRepeats(ids)
  {
    if ids != [] {
      var rest := ids[1..];
      assert ids == [ids[0]] + rest;
      assert multiset(ids) == multiset{ids[0]} + multiset(rest);
      forall id
        ensures multiset(rest)[id] <= 1
      {
        assert multiset(rest)[id] <= multiset(ids)[id];
      }
      AtMostOnceHasNoRepeats(rest);
      assert multiset(ids)[ids[0]] <= 1;
      assert ids[0] !in rest;
    }
  }

  /** What a child that accounts for its requests says of each of them. */
  lemma OnceAnswered(w: Wire, asked: map<Id, Request>, c: Child, id: Id)
    requires ChildInOrder(w, asked, c)
    ensures multiset(AnswerIds(w, c.output.lines))[id] <= 1
    ensures id in AnswerIds(w, c.output.lines) ==>
              && id in AskIds(w, c.input.lines) && id !in c.failed
              && id !in JobIds(c.jobs) && id !in JobIds(c.chain)
  {
    TakenIsPart(w, c);
    var taken := AskIds(w, c.input.Taken());
    OnceEach(taken, id);
    if id in AnswerIds(w, c.output.lines) {
      assert multiset(AnswerIds(w, c.output.lines))[id] == 1 == multiset(taken)[id];
      assert id in multiset(taken);
    }
  }

  /** In every run a request is answered at most once, over all sidecars, and once it is answered no sidecar has it any
      more. */
  lemma AnsweredAtMostOnce(w: Wire, es: seq<SystemEvent>, c: nat, d: nat, id: Id)
    requires Faithful(w) && SidecarProtocol.Legal(w, SidecarProtocol.INITIAL, es)
    requires c < |SidecarProtocol.Run(w, SidecarProtocol.INITIAL, es).children|
    requires d < |SidecarProtocol.Run(w, SidecarProtocol.INITIAL, es).children|
    requires id in AnswerIds(w, SidecarProtocol.Run(w, SidecarProtocol.INITIAL, es).children[c].output.lines)
    ensures var s := SidecarProtocol.Run(w, SidecarProtocol.INITIAL, es);
            && NoRepeats(AnswerIds(w, s.children[c].output.lines))
            && (id in AnswerIds(w, s.children[d].output.lines) ==> c == d)
            && id !in JobIds(s.children[d].jobs) && id !in JobIds(s.children[d].chain) && id !in s.children[d].failed
  {
    RunStaysInOnePlace(w, SidecarProtocol.INITIAL, es);
    var s := SidecarProtocol.Run(w, SidecarProtocol.INITIAL, es);
    AnswersDoNotRepeat(w, s, c);
    OnceAnswered(w, s.asked, s.children[c], id);
    if c != d {
      assert Apart(w, s.children[if c < d then c else d], s.children[if c < d then d else c]);
      NeverAskedNeverHeld(w, s.asked, s.children[d], id);
    }
  }

  lemma AnswersDoNotRepeat(w: Wire, s: State, c: nat)
    requires InOnePlace(w, s) && c < |s.children|
    ensures NoRepeats(AnswerIds(w, s.children[c].output.lines))
  {
    forall id
      ensures multiset(AnswerIds(w, s.children[c].output.lines))[id] <= 1
    {
      OnceAnswered(w, s.asked, s.children[c], id);
    }
    AtMostOnceHasNoRepeats(AnswerIds(w, s.children[c].output.lines));
  }

  lemma NeverAskedNeverHeld(w: Wire, asked: map<Id, Request>, c: Child, id: Id)
    requires ChildInOrder(w, asked, c) && id !in AskIds(w, c.input.lines)
    ensures id !in AnswerIds(w, c.output.lines)
    ensures id !in JobIds(c.jobs) && id !in JobIds(c.chain) && id !in c.failed
  {
    TakenIsPart(w, c);
    var taken := AskIds(w, c.input.Taken());
    assert id !in taken;
    assert multiset(taken)[id] == 0;
  }
}

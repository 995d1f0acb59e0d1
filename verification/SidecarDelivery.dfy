/** No request is lost between the desktop main process and its sidecars: while a request is pending it is in a pipe,
    in the sidecar's hands, or was given up by a handler that threw. */
module SidecarDelivery {
  import opened Collections
  import opened RequestTable
  import opened Framing
  import opened Pipes
  import opened SidecarProtocol
  import Sup = Supervisor

  /** The lines written to a pipe that its reader has not been handed yet. */
  function Left(p: Pipe): seq<string>
    requires p.read <= |p.Stream()| && |p.Taken()| <= |p.lines|
  {
    p.lines[|p.Taken()|..]
  }

  ghost predicate Readable(p: Pipe) {
    p.Valid() && |p.Taken()| <= |p.lines|
  }

  lemma ValidIsReadable(p: Pipe)
    requires p.Valid()
    ensures Readable(p)
  {
    TakenIsPrefix(p);
  }

  lemma LeftAfterRead(p: Pipe, n: nat)
    requires Readable(p) && p.read + n <= |p.Stream()|
    ensures Readable(p.Read(n)) && Left(p) == p.Arrivals(n) + Left(p.Read(n))
  {
    ReadKeepsValid(p, n);
    ArrivalsWereWritten(p, n);
    ValidIsReadable(p.Read(n));
  }

  lemma LeftAfterWrite(p: Pipe, line: string)
    requires Readable(p) && Framable(line)
    ensures Readable(p.Write(line)) && Left(p.Write(line)) == Left(p) + [line]
  {
    WriteKeepsValid(p, line);
    ValidIsReadable(p.Write(line));
  }

  predicate IsAsk(w: Wire, line: string, id: Id, r: Request) {
    w.readCommand(line) == Some(Ask(id, r))
  }

  predicate IsAnswer(w: Wire, line: string, id: Id, k: Kind) {
    match w.readMessage(line)
    case Some(Answer(k', id', _)) => k' == k && id' == id
    case _ => false
  }

  ghost predicate Healthy(c: Child) {
    Readable(c.input) && Readable(c.output)
  }

  /** Where a pending request can be, at child `c`. */
  ghost predicate At(w: Wire, c: Child, id: Id, r: Request)
    requires Healthy(c)
  {
    || (exists l :: l in Left(c.input) && IsAsk(w, l, id, r))
    || Job(id, r) in c.jobs || Job(id, r) in c.chain
    || (exists l :: l in Left(c.output) && IsAnswer(w, l, id, r.kind))
    || id in c.failed
  }

  // ---------------------------------------------------------------- a child never loses a request

  predicate InHand(c: Child, j: Job) {
    j in c.jobs || j in c.chain
  }

  lemma {:induction false} TakeInKeeps(w: Wire, c: Child, lines: seq<string>, j: Job)
    requires InHand(c, j) || exists l :: l in lines && IsAsk(w, l, j.id, j.request)
    ensures InHand(TakeIn(w, c, lines), j)
    decreases |lines|
  {
    if lines != [] {
      if !InHand(c, j) {
        var l :| l in lines && IsAsk(w, l, j.id, j.request);
        assert l == lines[0] || l in lines[1..];
      }
      TakeInKeeps(w, TakeInLine(w, c, lines[0]), lines[1..], j);
    }
  }

  lemma {:induction false} TakeInTouchesOnlyJobs(w: Wire, c: Child, lines: seq<string>)
    ensures var d := TakeIn(w, c, lines);
            d.input == c.input && d.output == c.output && d.failed == c.failed && d.computed == c.computed
    decreases |lines|
  {
    if lines != [] {
      TakeInTouchesOnlyJobs(w, TakeInLine(w, c, lines[0]), lines[1..]);
    }
  }

  /** Whatever is at `c` is still there when it has become `d`. */
  ghost predicate Keeps(w: Wire, c: Child, d: Child)
    requires Healthy(c)
  {
    Healthy(d) && forall id, r :: At(w, c, id, r) ==> At(w, d, id, r)
  }

  lemma ReadInputKeeps(w: Wire, c: Child, n: nat)
    requires Healthy(c) && c.input.read + n <= |c.input.Stream()|
    ensures Keeps(w, c, ReadCommands(w, c, n))
  {
    LeftAfterRead(c.input, n);
    var arrivals, d := c.input.Arrivals(n), c.(input := c.input.Read(n));
    TakeInTouchesOnlyJobs(w, d, arrivals);
    forall id, r | At(w, c, id, r)
      ensures At(w, ReadCommands(w, c, n), id, r)
    {
      if InHand(d, Job(id, r)) || exists l :: l in arrivals && IsAsk(w, l, id, r) {
        TakeInKeeps(w, d, arrivals, Job(id, r));
      }
    }
  }

  lemma WithoutJobKeeps(jobs: seq<Job>, j: nat, job: Job)
    requires j < |jobs| && job in jobs && job != jobs[j]
    ensures job in WithoutJob(jobs, j)
  {
    var i :| 0 <= i < |jobs| && jobs[i] == job;
    assert WithoutJob(jobs, j)[if i < j then i else i - 1] == job;
  }

  lemma SayKeeps(w: Wire, c: Child, m: Message)
    requires Faithful(w) && Healthy(c)
    ensures Keeps(w, c, c.(output := c.output.Write(w.writeMessage(m))))
  {
    LeftAfterWrite(c.output, w.writeMessage(m));
  }

  /** A request leaves the sidecar's hands only with its answer in the output. */
  lemma RespondKeeps(w: Wire, c: Child, d: Child, job: Job, outcome: Outcome)
    requires Faithful(w) && Healthy(c)
    requires d.input == c.input && d.output == c.output && d.failed == c.failed
    requires forall j :: InHand(c, j) ==> InHand(d, j) || j == job
    ensures Keeps(w, c, Respond(w, d, job, outcome))
  {
    var line := w.writeMessage(Answer(job.request.kind, job.id, outcome));
    LeftAfterWrite(c.output, line);
    assert line in Left(Respond(w, d, job, outcome).output) && IsAnswer(w, line, job.id, job.request.kind);
    forall id, r | At(w, c, id, r)
      ensures At(w, Respond(w, d, job, outcome), id, r)
    {
      assert InHand(c, Job(id, r)) ==> InHand(d, Job(id, r)) || Job(id, r) == job;
    }
  }

  lemma AnswerKeeps(w: Wire, c: Child, j: nat, outcome: Outcome)
    requires Faithful(w) && Healthy(c) && j < |c.jobs|
    ensures Keeps(w, c, AnswerJob(w, c, j, outcome))
  {
    var d := c.(jobs := WithoutJob(c.jobs, j));
    forall job | InHand(c, job)
      ensures InHand(d, job) || job == c.jobs[j]
    {
      if job in c.jobs && job != c.jobs[j] {
        WithoutJobKeeps(c.jobs, j, job);
      }
    }
    RespondKeeps(w, c, d, c.jobs[j], outcome);
  }

  lemma AnswerListingKeeps(w: Wire, c: Child, outcome: Outcome)
    requires Faithful(w) && Healthy(c) && c.chain != []
    ensures Keeps(w, c, AnswerListing(w, c, outcome))
  {
    assert c.chain == [c.chain[0]] + c.chain[1..];
    RespondKeeps(w, c, c.(chain := c.chain[1..]), c.chain[0], outcome);
  }

  lemma FailKeeps(w: Wire, c: Child, j: nat)
    requires Healthy(c) && j < |c.jobs|
    ensures Keeps(w, c, FailJob(c, j))
  {
    forall id, r | At(w, c, id, r)
      ensures At(w, FailJob(c, j), id, r)
    {
      if Job(id, r) in c.jobs && c.jobs[j] != Job(id, r) {
        WithoutJobKeeps(c.jobs, j, Job(id, r));
      }
    }
  }

  lemma SentKeeps(w: Wire, c: Child, command: Command)
    requires Faithful(w) && Healthy(c)
    ensures Keeps(w, c, Sent(w, c, command))
    ensures command.Ask? ==> At(w, Sent(w, c, command), command.id, command.request)
  {
    var line := w.writeCommand(command);
    LeftAfterWrite(c.input, line);
    assert line in Left(Sent(w, c, command).input);
  }

  // ---------------------------------------------------------------- reading an answer settles its request

  predicate IsPending(tables: map<Kind, Table>, k: Kind, id: Id) {
    id in Ids(TableOf(tables, k).pending)
  }

  lemma ReplySettles(t: Table, id: Id, outcome: Outcome)
    ensures Ids(Next(t, Reply(id, outcome)).pending) == Ids(t.pending) - {id}
  {
    WithoutIds(t.pending, id);
  }

  function HandledTables(w: Wire, tables: map<Kind, Table>, line: string): map<Kind, Table> {
    match w.readMessage(line)
    case Some(Answer(k, id, outcome)) => tables[k := Next(TableOf(tables, k), Reply(id, outcome))]
    case _ => tables
  }

  lemma HandleChangesTables(w: Wire, s: State, c: nat, line: string)
    ensures Handle(w, s, c, line).tables == HandledTables(w, s.tables, line)
  {
  }

  lemma HandledSettles(w: Wire, tables: map<Kind, Table>, line: string, k: Kind, id: Id)
    ensures IsPending(HandledTables(w, tables, line), k, id) <==> IsPending(tables, k, id) && !IsAnswer(w, line, id, k)
  {
    match w.readMessage(line) {
      case Some(Answer(k', id', outcome)) =>
        ReplySettles(TableOf(tables, k'), id', outcome);
        OneTableChanges(tables, k', Next(TableOf(tables, k'), Reply(id', outcome)), id', k, id);
      case _ =>
    }
  }

  /** Taking one id out of one table changes only whether that id of that kind is pending. */
  lemma OneTableChanges(tables: map<Kind, Table>, k': Kind, t: Table, id': Id, k: Kind, id: Id)
    requires Ids(t.pending) == Ids(TableOf(tables, k').pending) - {id'}
    ensures IsPending(tables[k' := t], k, id) <==> IsPending(tables, k, id) && !(k' == k && id' == id)
  {
  }

  lemma HandleSettles(w: Wire, s: State, c: nat, line: string, k: Kind, id: Id)
    ensures IsPending(Handle(w, s, c, line).tables, k, id) <==> IsPending(s.tables, k, id) && !IsAnswer(w, line, id, k)
  {
    HandleChangesTables(w, s, c, line);
    HandledSettles(w, s.tables, line, k, id);
  }

  ghost predicate HoldsAnswer(w: Wire, lines: seq<string>, k: Kind, id: Id) {
    exists l :: l in lines && IsAnswer(w, l, id, k)
  }

  lemma {:induction false} HandleAllSettles(w: Wire, s: State, c: nat, lines: seq<string>, k: Kind, id: Id)
    ensures IsPending(HandleAll(w, s, c, lines).tables, k, id) <==>
            IsPending(s.tables, k, id) && !HoldsAnswer(w, lines, k, id)
    decreases |lines|
  {
    if lines != [] {
      HandleAllSettles(w, Handle(w, s, c, lines[0]), c, lines[1..], k, id);
      HandleSettles(w, s, c, lines[0], k, id);
      assert forall l :: l in lines <==> l == lines[0] || l in lines[1..];
    }
  }

  // ---------------------------------------------------------------- every run

  ghost predicate AllHealthy(s: State) {
    forall c :: 0 <= c < |s.children| ==> Healthy(s.children[c])
  }

  /** The request is at some child, under the kind it was asked for. */
  ghost predicate Located(w: Wire, s: State, k: Kind, id: Id)
    requires AllHealthy(s)
  {
    && id in s.asked && s.asked[id].kind == k
    && exists c :: 0 <= c < |s.children| && At(w, s.children[c], id, s.asked[id])
  }

  ghost predicate NothingLost(w: Wire, s: State) {
    AllHealthy(s) && forall k, id :: IsPending(s.tables, k, id) ==> Located(w, s, k, id)
  }

  /** A request stays located when the child it is at becomes another that still has it. */
  lemma LocatedAfterMove(w: Wire, s: State, t: State, c: nat, k: Kind, id: Id)
    requires AllHealthy(s) && AllHealthy(t) && Located(w, s, k, id) && AskedAs(t.asked, id, s.asked[id])
    requires c < |s.children| == |t.children| && t.children == s.children[c := t.children[c]]
    requires At(w, s.children[c], id, s.asked[id]) ==> At(w, t.children[c], id, s.asked[id])
    ensures Located(w, t, k, id)
  {
    var d :| 0 <= d < |s.children| && At(w, s.children[d], id, s.asked[id]);
    assert At(w, t.children[d], id, t.asked[id]);
  }

  /** Nothing is lost when one child becomes another that keeps all it had, and no new request is pending. */
  lemma ChildKeepsAll(w: Wire, s: State, t: State, c: nat)
    requires NothingLost(w, s) && c < |s.children| == |t.children| && t.children == s.children[c := t.children[c]]
    requires Keeps(w, s.children[c], t.children[c])
    requires t.asked == s.asked && forall k, id :: IsPending(t.tables, k, id) ==> IsPending(s.tables, k, id)
    ensures NothingLost(w, t)
  {
    forall k, id | IsPending(t.tables, k, id)
      ensures Located(w, t, k, id)
    {
      assert Located(w, s, k, id);
      var d :| 0 <= d < |s.children| && At(w, s.children[d], id, s.asked[id]);
      assert At(w, t.children[d], id, t.asked[id]);
    }
  }

  predicate ByAChild(e: SidecarProtocol.Event) {
    e.SidecarReads? || e.SidecarAnswers? || e.SidecarLists? || e.SidecarFails? || e.SidecarSays?
  }

  lemma ChildStepKeeps(w: Wire, s: State, e: SidecarProtocol.Event)
    requires Faithful(w) && AllHealthy(s) && SidecarProtocol.Enabled(s, e) && ByAChild(e)
    ensures Keeps(w, s.children[e.child], Step(w, s, e).children[e.child])
  {
    var c := s.children[e.child];
    match e {
      case SidecarReads(_, n) => ReadInputKeeps(w, c, n);
      case SidecarAnswers(_, j, outcome) => AnswerKeeps(w, c, j, outcome);
      case SidecarLists(_, outcome) => AnswerListingKeeps(w, c, outcome);
      case SidecarFails(_, j) => FailKeeps(w, c, j);
      case SidecarSays(_, text) => SayKeeps(w, c, OtherMessage(text));
    }
  }

  lemma TellLosesNothing(w: Wire, s: State, text: string, writable: bool)
    requires Faithful(w) && NothingLost(w, s)
    ensures NothingLost(w, Told(w, s, text, writable))
  {
    if CanSend(s, writable) {
      var c := s.sup.current.id;
      SentKeeps(w, s.children[c], OtherCommand(text));
      ChildKeepsAll(w, s, Told(w, s, text, writable), c);
    }
  }

  lemma IssueLosesNothing(w: Wire, s: State, call: Call, r: Request, writable: bool)
    requires Faithful(w) && NothingLost(w, s)
    requires SidecarProtocol.Enabled(s, SidecarProtocol.Event.Issue(call, r, writable))
    ensures NothingLost(w, Issued(w, s, call, r, writable))
  {
    var t := Issued(w, s, call, r, writable);
    IssueKeepsHealth(w, s, call, r, writable);
    forall k, id | IsPending(t.tables, k, id)
      ensures Located(w, t, k, id)
    {
      if IsPending(s.tables, k, id) {
        IssueKeepsLocated(w, s, call, r, writable, k, id);
      } else {
        assert id == call.id && k == r.kind && At(w, t.children[s.sup.current.id], id, r);
      }
    }
  }

  lemma IssueKeepsHealth(w: Wire, s: State, call: Call, r: Request, writable: bool)
    requires Faithful(w) && AllHealthy(s)
    requires SidecarProtocol.Enabled(s, SidecarProtocol.Event.Issue(call, r, writable))
    ensures AllHealthy(Issued(w, s, call, r, writable))
    ensures CanSend(s, writable) ==>
              var c := s.children[s.sup.current.id];
              Keeps(w, c, Sent(w, c, Ask(call.id, r))) && At(w, Sent(w, c, Ask(call.id, r)), call.id, r)
  {
    if CanSend(s, writable) {
      SentKeeps(w, s.children[s.sup.current.id], Ask(call.id, r));
    }
  }

  lemma IssueKeepsLocated(w: Wire, s: State, call: Call, r: Request, writable: bool, k: Kind, id: Id)
    requires Faithful(w) && AllHealthy(s) && Located(w, s, k, id)
    requires SidecarProtocol.Enabled(s, SidecarProtocol.Event.Issue(call, r, writable))
    requires AllHealthy(Issued(w, s, call, r, writable))
    ensures Located(w, Issued(w, s, call, r, writable), k, id)
  {
    var t := Issued(w, s, call, r, writable);
    if CanSend(s, writable) {
      IssueKeepsHealth(w, s, call, r, writable);
      LocatedAfterMove(w, s, t, s.sup.current.id, k, id);
    } else {
      var d :| 0 <= d < |s.children| && At(w, s.children[d], id, s.asked[id]);
      assert At(w, t.children[d], id, t.asked[id]);
    }
  }

  lemma LifecycleLosesNothing(w: Wire, s: State, e: Sup.Event)
    requires NothingLost(w, s)
    ensures NothingLost(w, LifecycleStep(s, e))
  {
    var t := LifecycleStep(s, e);
    ValidIsReadable(EMPTY);
    assert AllHealthy(t);
    forall k, id | IsPending(t.tables, k, id)
      ensures Located(w, t, k, id)
    {
      assert IsPending(s.tables, k, id) && Located(w, s, k, id);
      var c :| 0 <= c < |s.children| && At(w, s.children[c], id, s.asked[id]);
      assert t.children[c] == s.children[c];
    }
  }

  /** Reading output takes away only answers, and settles the requests they answer. */
  lemma MainReadsLosesNothing(w: Wire, s: State, c: nat, n: nat)
    requires NothingLost(w, s) && SidecarProtocol.Enabled(s, MainReads(c, n))
    ensures NothingLost(w, Step(w, s, MainReads(c, n)))
  {
    var child, t := s.children[c], Step(w, s, MainReads(c, n));
    var arrivals := child.output.Arrivals(n);
    var s1 := s.(children := s.children[c := child.(output := child.output.Read(n))]);
    HandleAllChildren(w, s1, c, arrivals);
    LeftAfterRead(child.output, n);
    assert AllHealthy(t);
    forall k, id | IsPending(t.tables, k, id)
      ensures Located(w, t, k, id)
    {
      HandleAllSettles(w, s1, c, arrivals, k, id);
      StaysLocated(w, s, c, n, k, id);
      assert t.children == s1.children && t.asked == s1.asked;
    }
  }

  lemma StaysLocated(w: Wire, s: State, c: nat, n: nat, k: Kind, id: Id)
    requires AllHealthy(s) && Located(w, s, k, id) && SidecarProtocol.Enabled(s, MainReads(c, n))
    requires !HoldsAnswer(w, s.children[c].output.Arrivals(n), k, id)
    ensures var child := s.children[c];
            var s1 := s.(children := s.children[c := child.(output := child.output.Read(n))]);
            AllHealthy(s1) && Located(w, s1, k, id)
  {
    var child := s.children[c];
    var s1 := s.(children := s.children[c := child.(output := child.output.Read(n))]);
    StillAt(w, child, n, id, s.asked[id]);
    LocatedAfterMove(w, s, s1, c, k, id);
  }

  lemma StillAt(w: Wire, c: Child, n: nat, id: Id, r: Request)
    requires Healthy(c) && c.output.read + n <= |c.output.Stream()|
    requires !HoldsAnswer(w, c.output.Arrivals(n), r.kind, id)
    ensures var d := c.(output := c.output.Read(n)); Healthy(d) && (At(w, c, id, r) ==> At(w, d, id, r))
  {
    LeftAfterRead(c.output, n);
  }

  lemma TimeoutLosesNothing(w: Wire, s: State, k: Kind, id: Id)
    requires NothingLost(w, s) && SidecarProtocol.Enabled(s, TimedOut(k, id))
    ensures NothingLost(w, Step(w, s, TimedOut(k, id)))
  {
    var t := Step(w, s, TimedOut(k, id));
    WithoutIds(TableOf(s.tables, k).pending, id);
    forall k', id' | IsPending(t.tables, k', id')
      ensures Located(w, t, k', id')
    {
      assert IsPending(s.tables, k', id') && Located(w, s, k', id');
    }
  }

  lemma StepLosesNothing(w: Wire, s: State, e: SidecarProtocol.Event)
    requires Faithful(w) && NothingLost(w, s) && SidecarProtocol.Enabled(s, e)
    ensures NothingLost(w, Step(w, s, e))
  {
    if ByAChild(e) {
      ChildStepKeeps(w, s, e);
      ChildKeepsAll(w, s, Step(w, s, e), e.child);
    } else {
      match e {
        case Issue(call, r, writable) => IssueLosesNothing(w, s, call, r, writable);
        case Tell(text, writable) => TellLosesNothing(w, s, text, writable);
        case MainReads(c, n) => MainReadsLosesNothing(w, s, c, n);
        case TimedOut(k, id) => TimeoutLosesNothing(w, s, k, id);
        case Lifecycle(l) => LifecycleLosesNothing(w, s, l);
      }
    }
  }

  /** In every run each pending request is on its way to a child, in its hands, given up, or answered on the way
      back. */
  lemma {:induction false} RunLosesNothing(w: Wire, s: State, es: seq<SidecarProtocol.Event>)
    requires Faithful(w) && NothingLost(w, s) && SidecarProtocol.Legal(w, s, es)
    ensures NothingLost(w, SidecarProtocol.Run(w, s, es))
    decreases |es|
  {
    if es != [] {
      StepLosesNothing(w, s, es[0]);
      RunLosesNothing(w, Step(w, s, es[0]), es[1..]);
    }
  }

  /** All pipes read to the end and nothing in hand. */
  ghost predicate Quiet(c: Child) {
    && c.input.read == |c.input.Stream()| && c.output.read == |c.output.Stream()|
    && c.jobs == [] && c.chain == []
  }

  lemma QuietHoldsNothing(w: Wire, c: Child, id: Id, r: Request)
    requires Healthy(c) && Quiet(c) && id !in c.failed
    ensures !At(w, c, id, r)
  {
    TakenIsPrefix(c.input);
    TakenIsPrefix(c.output);
  }

  /** When every sidecar has read and answered everything and every answer has been read, a request that no handler
      gave up is not pending, however the streams were chunked, the answers ordered and the children replaced. */
  lemma QuietMeansSettled(w: Wire, es: seq<SidecarProtocol.Event>, k: Kind, id: Id)
    requires Faithful(w) && SidecarProtocol.Legal(w, SidecarProtocol.INITIAL, es)
    requires forall c :: c in SidecarProtocol.Run(w, SidecarProtocol.INITIAL, es).children ==>
               Quiet(c) && id !in c.failed
    ensures !IsPending(SidecarProtocol.Run(w, SidecarProtocol.INITIAL, es).tables, k, id)
  {
    RunLosesNothing(w, SidecarProtocol.INITIAL, es);
    var s := SidecarProtocol.Run(w, SidecarProtocol.INITIAL, es);
    if IsPending(s.tables, k, id) {
      assert Located(w, s, k, id);
      var c :| 0 <= c < |s.children| && At(w, s.children[c], id, s.asked[id]);
      QuietHoldsNothing(w, s.children[c], id, s.asked[id]);
    }
  }
}

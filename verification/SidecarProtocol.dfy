/** The desktop main process and its sidecars as one transition system: requests issued under fresh ids
    (pending-requests.ts, sidecar-rpc.ts), sent as JSON lines over chunked pipes (sidecar-process.ts), answered in any
    order by the sidecar (ipc-server.ts), while the supervisor (main.ts) replaces children. */
module SidecarProtocol {
  import opened Collections
  import opened RequestTable
  import opened Framing
  import opened Pipes
  import Sup = Supervisor

  /** The pending queues of the registry, one per request type, and the rpc client. */
  datatype Kind =
    | ProviderList | SessionList | SessionSelect | SessionNew | SessionRename | SessionArchive | SessionBranch
    | SessionSearch | SessionDelete | SkillsList | ModelList | ModelCurrent | AgentsList | SkillsInstall
    | SkillsUninstall | DesignSystems | DesignSkills | DesignMatch | DesignBuildPrompt | DesignArtifactList
    | DesignArtifactCreate | DesignArtifactRetry | MemoryList | MemoryAdd | MemoryRemove | MemoryClear | Rpc

  /** The queues `rejectPendingRequests` empties when the current child exits or fails to start. */
  predicate Drained(k: Kind) {
    k !in {SessionRename, SessionArchive, SessionBranch, SessionSearch}
  }

  datatype Request = Request(kind: Kind, params: string)

  datatype Command = Ask(id: Id, request: Request) | OtherCommand(text: string)

  datatype Message = Answer(kind: Kind, id: Id, outcome: Outcome) | OtherMessage(text: string)

  /** `JSON.stringify` and `JSON.parse` for the two message types. */
  datatype Wire = Wire(
    writeCommand: Command -> string, readCommand: string -> Option<Command>,
    writeMessage: Message -> string, readMessage: string -> Option<Message>)

  ghost predicate Faithful(w: Wire) {
    && (forall c :: Framable(w.writeCommand(c)) && w.readCommand(w.writeCommand(c)) == Some(c))
    && (forall m :: Framable(w.writeMessage(m)) && w.readMessage(w.writeMessage(m)) == Some(m))
  }

  /** A request the sidecar has taken in and not answered yet. */
  datatype Job = Job(id: Id, request: Request)

  /** A value the sidecar worked out for a request. */
  datatype Answered = Answered(id: Id, request: Request, outcome: Outcome)

  /** `chain` is `modelListQueue`: the model listings not answered yet, each waiting for the one before it. The other
      requests, in `jobs`, are answered in any order. `failed` records those whose handler threw, which are never
      answered. */
  datatype Child = Child(
    input: Pipe, jobs: seq<Job>, chain: seq<Job>, computed: set<Answered>, failed: set<Id>, output: Pipe)

  datatype State = State(sup: Sup.State, tables: map<Kind, Table>, asked: map<Id, Request>, children: seq<Child>)

  datatype Event =
    | Issue(call: Call, request: Request, writable: bool)
    /** A command that is not a request: a prompt, a cancel, a permission. */
    | Tell(text: string, writable: bool)
    | SidecarReads(child: nat, n: nat)
    | SidecarAnswers(child: nat, job: nat, outcome: Outcome)
    | SidecarLists(child: nat, outcome: Outcome)
    | SidecarFails(child: nat, job: nat)
    | SidecarSays(child: nat, text: string)
    | MainReads(child: nat, n: nat)
    | TimedOut(kind: Kind, id: Id)
    | Lifecycle(e: Sup.Event)

  const INITIAL := State(Sup.INITIAL, map[], map[], [])
  const NEW_CHILD := Child(EMPTY, [], [], {}, {}, EMPTY)
  const STOPPED := Failed("Aurict runtime stopped before completing the request")
  const UNAVAILABLE := Failed("Aurict runtime is unavailable. It is restarting; try again shortly.")

  function TableOf(tables: map<Kind, Table>, k: Kind): Table {
    if k in tables then tables[k] else Empty()
  }

  // ---------------------------------------------------------------- the steps

  /** `sendToSidecar` writes to the current child, or throws. */
  predicate CanSend(s: State, writable: bool) {
    s.sup.current.Child? && s.sup.current.id < |s.children| && writable
  }

  /** Ids are fresh, only an armed timer fires, and a chunk is part of what was written. */
  predicate Enabled(s: State, e: Event) {
    match e
    case Issue(call, request, _) => call.id !in s.asked && call.id !in TableOf(s.tables, request.kind).issued
    case SidecarReads(c, n) => c < |s.children| && s.children[c].input.read + n <= |s.children[c].input.Stream()|
    case SidecarAnswers(c, j, _) => c < |s.children| && j < |s.children[c].jobs|
    case SidecarLists(c, _) => c < |s.children| && s.children[c].chain != []
    case SidecarFails(c, j) => c < |s.children| && j < |s.children[c].jobs|
    case SidecarSays(c, _) => c < |s.children|
    case MainReads(c, n) => c < |s.children| && s.children[c].output.read + n <= |s.children[c].output.Stream()|
    case TimedOut(k, id) => id in TableOf(s.tables, k).armed
    case Lifecycle(e) => Sup.Enabled(s.sup, e) && !e.Line?
    case Tell(_, _) => true
  }

  /** What the main process does to a child when it sends it a command. */
  function Sent(w: Wire, c: Child, command: Command): Child {
    c.(input := c.input.Write(w.writeCommand(command)))
  }

  function Issued(w: Wire, s: State, call: Call, request: Request, writable: bool): State
    requires call.id !in s.asked
    requires call.id !in TableOf(s.tables, request.kind).issued
  {
    var t := TableOf(s.tables, request.kind);
    if CanSend(s, writable) then
      var c := s.sup.current.id;
      var child := Sent(w, s.children[c], Ask(call.id, request));
      s.(tables := s.tables[request.kind := Next(t, RequestTable.Issue(call))],
         asked := s.asked[call.id := request], children := s.children[c := child])
    else
      s.(tables := s.tables[request.kind := Next(t, IssueFails(call, UNAVAILABLE))],
         asked := s.asked[call.id := request])
  }

  /** `sendToSidecar` for anything but a request; when it throws, nothing is left waiting. */
  function Told(w: Wire, s: State, text: string, writable: bool): State {
    if CanSend(s, writable) then
      var c := s.sup.current.id;
      s.(children := s.children[c := Sent(w, s.children[c], OtherCommand(text))])
    else s
  }

  /** `handleCommand` for one line: a model listing goes to the end of the chain, any other request becomes a job. */
  function TakeInLine(w: Wire, c: Child, line: string): Child {
    match w.readCommand(line)
    case Some(Ask(id, request)) =>
      if request.kind == ModelList then c.(chain := c.chain + [Job(id, request)])
      else c.(jobs := c.jobs + [Job(id, request)])
    case _ => c
  }

  /** The same for the lines of one chunk. */
  function TakeIn(w: Wire, c: Child, lines: seq<string>): Child
    decreases |lines|
  {
    if lines == [] then c else TakeIn(w, TakeInLine(w, c, lines[0]), lines[1..])
  }

  function ReadCommands(w: Wire, c: Child, n: nat): Child
    requires c.input.read + n <= |c.input.Stream()|
  {
    TakeIn(w, c.(input := c.input.Read(n)), c.input.Arrivals(n))
  }

  function WithoutJob(jobs: seq<Job>, j: nat): seq<Job>
    requires j < |jobs|
  {
    jobs[..j] + jobs[j + 1..]
  }

  /** The answer to a request carries the id it came with, in a message of the matching type. */
  function Respond(w: Wire, c: Child, job: Job, outcome: Outcome): Child {
    c.(computed := c.computed + {Answered(job.id, job.request, outcome)},
       output := c.output.Write(w.writeMessage(Answer(job.request.kind, job.id, outcome))))
  }

  function AnswerJob(w: Wire, c: Child, j: nat, outcome: Outcome): Child
    requires j < |c.jobs|
  {
    Respond(w, c.(jobs := WithoutJob(c.jobs, j)), c.jobs[j], outcome)
  }

  /** The first listing of the chain is answered; the next one may then run. */
  function AnswerListing(w: Wire, c: Child, outcome: Outcome): Child
    requires c.chain != []
  {
    Respond(w, c.(chain := c.chain[1..]), c.chain[0], outcome)
  }

  function FailJob(c: Child, j: nat): Child
    requires j < |c.jobs|
  {
    c.(jobs := WithoutJob(c.jobs, j), failed := c.failed + {c.jobs[j].id})
  }

  /** `handleSidecarMessage` for one line, from whichever child it came. */
  function Handle(w: Wire, s: State, c: nat, line: string): State {
    match w.readMessage(line)
    case None => s
    case Some(OtherMessage(_)) => s.(sup := Sup.Next(s.sup, Sup.Line(c)))
    case Some(Answer(k, id, outcome)) =>
      s.(sup := Sup.Next(s.sup, Sup.Line(c)),
         tables := s.tables[k := Next(TableOf(s.tables, k), Reply(id, outcome))])
  }

  function HandleAll(w: Wire, s: State, c: nat, lines: seq<string>): State
    decreases |lines|
  {
    if lines == [] then s else HandleAll(w, Handle(w, s, c, lines[0]), c, lines[1..])
  }

  function RejectPending(tables: map<Kind, Table>): map<Kind, Table> {
    map k | k in tables :: if Drained(k) then Next(tables[k], RejectAll(STOPPED)) else tables[k]
  }

  /** Whether a lifecycle event makes the main process reject what is pending. */
  predicate Rejects(s: State, e: Sup.Event) {
    (e.ChildExit? || e.ChildError?) && s.sup.current == Sup.Child(e.child)
  }

  function LifecycleStep(s: State, e: Sup.Event): State {
    var sup := Sup.Next(s.sup, e);
    s.(sup := sup,
       tables := if Rejects(s, e) then RejectPending(s.tables) else s.tables,
       children := if sup.spawned > |s.children| then s.children + [NEW_CHILD] else s.children)
  }

  function Step(w: Wire, s: State, e: Event): State
    requires Enabled(s, e)
  {
    match e
    case Issue(call, request, writable) => Issued(w, s, call, request, writable)
    case Tell(text, writable) => Told(w, s, text, writable)
    case SidecarReads(c, n) => s.(children := s.children[c := ReadCommands(w, s.children[c], n)])
    case SidecarAnswers(c, j, outcome) => s.(children := s.children[c := AnswerJob(w, s.children[c], j, outcome)])
    case SidecarLists(c, outcome) => s.(children := s.children[c := AnswerListing(w, s.children[c], outcome)])
    case SidecarFails(c, j) => s.(children := s.children[c := FailJob(s.children[c], j)])
    case SidecarSays(c, text) =>
      var child := s.children[c].(output := s.children[c].output.Write(w.writeMessage(OtherMessage(text))));
      s.(children := s.children[c := child])
    case MainReads(c, n) =>
      var child := s.children[c];
      HandleAll(w, s.(children := s.children[c := child.(output := child.output.Read(n))]), c, child.output.Arrivals(n))
    case TimedOut(k, id) => s.(tables := s.tables[k := Next(TableOf(s.tables, k), Timeout(id))])
    case Lifecycle(e) => LifecycleStep(s, e)
  }

  // ---------------------------------------------------------------- the invariant

  predicate AskedAs(asked: map<Id, Request>, id: Id, request: Request) {
    id in asked && asked[id] == request
  }

  predicate JobsOk(asked: map<Id, Request>, jobs: seq<Job>) {
    forall j :: j in jobs ==> AskedAs(asked, j.id, j.request)
  }

  /** Everything on the wire and in the sidecar belongs to a request that was really asked, under that very id. */
  ghost predicate ChildOk(w: Wire, asked: map<Id, Request>, c: Child) {
    && c.input.Valid() && c.output.Valid()
    && (forall l :: l in c.input.lines ==> CommandOk(w, asked, l))
    && JobsOk(asked, c.jobs) && JobsOk(asked, c.chain)
    && (forall a :: a in c.computed ==> AskedAs(asked, a.id, a.request))
    && (forall l :: l in c.output.lines ==> MessageOk(w, asked, c.computed, l))
  }

  predicate CommandOk(w: Wire, asked: map<Id, Request>, line: string) {
    match w.readCommand(line)
    case Some(Ask(id, request)) => AskedAs(asked, id, request)
    case _ => true
  }

  predicate MessageOk(w: Wire, asked: map<Id, Request>, computed: set<Answered>, line: string) {
    match w.readMessage(line)
    case Some(Answer(k, id, outcome)) =>
      id in asked && asked[id].kind == k && Answered(id, asked[id], outcome) in computed
    case _ => true
  }

  /** Some child computed `v` for the request asked under `id`. */
  predicate ComputedFor(asked: map<Id, Request>, children: seq<Child>, id: Id, v: Value) {
    id in asked && exists c :: 0 <= c < |children| && Answered(id, asked[id], Resolved(v)) in children[c].computed
  }

  ghost predicate TableOk(asked: map<Id, Request>, children: seq<Child>, k: Kind, t: Table) {
    && RequestTable.Inv(t)
    && (forall id :: id in t.issued ==> id in asked && asked[id].kind == k)
    && (forall x :: x in t.settled && x.outcome.Resolved? ==> ComputedFor(asked, children, x.id, x.outcome.value))
  }

  ghost predicate WorldOk(w: Wire, s: State) {
    && (forall c :: 0 <= c < |s.children| ==> ChildOk(w, s.asked, s.children[c]))
    && (forall k :: k in s.tables ==> TableOk(s.asked, s.children, k, s.tables[k]))
  }

  ghost predicate Inv(w: Wire, s: State) {
    Sup.Inv(s.sup) && |s.children| == s.sup.spawned && WorldOk(w, s)
  }

  /** Later states know at least as much. */
  predicate Grown(a: map<Id, Request>, cs: seq<Child>, a': map<Id, Request>, cs': seq<Child>) {
    && (forall id :: id in a ==> id in a' && a'[id] == a[id])
    && |cs| <= |cs'|
    && (forall c :: 0 <= c < |cs| ==> cs[c].computed <= cs'[c].computed)
  }

  lemma GrownTable(a: map<Id, Request>, cs: seq<Child>, a': map<Id, Request>, cs': seq<Child>, k: Kind, t: Table)
    requires Grown(a, cs, a', cs') && TableOk(a, cs, k, t)
    ensures TableOk(a', cs', k, t)
  {
    forall x | x in t.settled && x.outcome.Resolved?
      ensures ComputedFor(a', cs', x.id, x.outcome.value)
    {
      var c :| 0 <= c < |cs| && Answered(x.id, a[x.id], Resolved(x.outcome.value)) in cs[c].computed;
      assert Answered(x.id, a'[x.id], Resolved(x.outcome.value)) in cs'[c].computed;
    }
  }

  lemma GrownChild(w: Wire, a: map<Id, Request>, a': map<Id, Request>, c: Child)
    requires (forall id :: id in a ==> id in a' && a'[id] == a[id]) && ChildOk(w, a, c)
    ensures ChildOk(w, a', c)
  {
    forall l | l in c.input.lines
      ensures CommandOk(w, a', l)
    {
      assert CommandOk(w, a, l);
    }
    forall l | l in c.output.lines
      ensures MessageOk(w, a', c.computed, l)
    {
      assert MessageOk(w, a, c.computed, l);
    }
  }

  // ---------------------------------------------------------------- steps of a child

  lemma WriteInput(w: Wire, asked: map<Id, Request>, c: Child, command: Command)
    requires Faithful(w) && ChildOk(w, asked, c) && (command.Ask? ==> AskedAs(asked, command.id, command.request))
    ensures ChildOk(w, asked, Sent(w, c, command))
  {
    WriteKeepsValid(c.input, w.writeCommand(command));
  }

  lemma TakeInLineOk(w: Wire, asked: map<Id, Request>, c: Child, line: string)
    requires ChildOk(w, asked, c) && CommandOk(w, asked, line)
    ensures ChildOk(w, asked, TakeInLine(w, c, line)) && TakeInLine(w, c, line).computed == c.computed
  {
  }

  lemma {:induction false} TakeInOk(w: Wire, asked: map<Id, Request>, c: Child, lines: seq<string>)
    requires ChildOk(w, asked, c) && forall l :: l in lines ==> CommandOk(w, asked, l)
    ensures ChildOk(w, asked, TakeIn(w, c, lines)) && TakeIn(w, c, lines).computed == c.computed
    decreases |lines|
  {
    if lines != [] {
      TakeInLineOk(w, asked, c, lines[0]);
      TakeInOk(w, asked, TakeInLine(w, c, lines[0]), lines[1..]);
    }
  }

  lemma ReadInput(w: Wire, asked: map<Id, Request>, c: Child, n: nat)
    requires ChildOk(w, asked, c) && c.input.read + n <= |c.input.Stream()|
    ensures ChildOk(w, asked, ReadCommands(w, c, n)) && ReadCommands(w, c, n).computed == c.computed
  {
    ReadKeepsValid(c.input, n);
    ArrivalsWereWritten(c.input, n);
    TakeInOk(w, asked, c.(input := c.input.Read(n)), c.input.Arrivals(n));
  }

  lemma WriteOutput(w: Wire, asked: map<Id, Request>, c: Child, m: Message)
    requires Faithful(w) && ChildOk(w, asked, c)
    requires m.Answer? ==>
               m.id in asked && asked[m.id].kind == m.kind && Answered(m.id, asked[m.id], m.outcome) in c.computed
    ensures ChildOk(w, asked, c.(output := c.output.Write(w.writeMessage(m))))
  {
    WriteKeepsValid(c.output, w.writeMessage(m));
  }

  lemma RespondOk(w: Wire, asked: map<Id, Request>, c: Child, job: Job, outcome: Outcome)
    requires Faithful(w) && ChildOk(w, asked, c) && AskedAs(asked, job.id, job.request)
    ensures ChildOk(w, asked, Respond(w, c, job, outcome))
  {
    var d := c.(computed := c.computed + {Answered(job.id, job.request, outcome)});
    forall l | l in d.output.lines
      ensures MessageOk(w, asked, d.computed, l)
    {
      assert MessageOk(w, asked, c.computed, l);
    }
    WriteOutput(w, asked, d, Answer(job.request.kind, job.id, outcome));
  }

  lemma AnswerJobOk(w: Wire, asked: map<Id, Request>, c: Child, j: nat, outcome: Outcome)
    requires Faithful(w) && ChildOk(w, asked, c) && j < |c.jobs|
    ensures ChildOk(w, asked, AnswerJob(w, c, j, outcome))
  {
    assert c.jobs[j] in c.jobs;
    RespondOk(w, asked, c.(jobs := WithoutJob(c.jobs, j)), c.jobs[j], outcome);
  }

  lemma AnswerListingOk(w: Wire, asked: map<Id, Request>, c: Child, outcome: Outcome)
    requires Faithful(w) && ChildOk(w, asked, c) && c.chain != []
    ensures ChildOk(w, asked, AnswerListing(w, c, outcome))
  {
    assert c.chain[0] in c.chain;
    RespondOk(w, asked, c.(chain := c.chain[1..]), c.chain[0], outcome);
  }

  // ---------------------------------------------------------------- steps of the main process

  lemma ReplyOk(w: Wire, asked: map<Id, Request>, children: seq<Child>, k: Kind, t: Table, id: Id, outcome: Outcome)
    requires TableOk(asked, children, k, t)
    requires outcome.Resolved? ==> ComputedFor(asked, children, id, outcome.value)
    ensures TableOk(asked, children, k, Next(t, Reply(id, outcome)))
  {
    NextKeepsInv(t, Reply(id, outcome));
  }

  lemma EmptyTableOk(asked: map<Id, Request>, children: seq<Child>, k: Kind)
    ensures TableOk(asked, children, k, Empty())
  {
  }

  lemma {:induction false} HandleAllOk(w: Wire, s: State, c: nat, lines: seq<string>)
    requires WorldOk(w, s) && c < |s.children|
    requires forall l :: l in lines ==> l in s.children[c].output.lines
    ensures WorldOk(w, HandleAll(w, s, c, lines))
    decreases |lines|
  {
    if lines != [] {
      HandleOk(w, s, c, lines[0]);
      HandleAllOk(w, Handle(w, s, c, lines[0]), c, lines[1..]);
    }
  }

  /** Handling output changes neither the children nor what was asked. */
  lemma {:induction false} HandleAllChildren(w: Wire, s: State, c: nat, lines: seq<string>)
    ensures HandleAll(w, s, c, lines).children == s.children && HandleAll(w, s, c, lines).asked == s.asked
    decreases |lines|
  {
    if lines != [] {
      HandleAllChildren(w, Handle(w, s, c, lines[0]), c, lines[1..]);
    }
  }

  lemma {:induction false} HandleAllSup(w: Wire, s: State, c: nat, lines: seq<string>)
    requires Sup.Inv(s.sup) && c < s.sup.spawned
    ensures var t := HandleAll(w, s, c, lines);
            Sup.Inv(t.sup) && t.sup.spawned == s.sup.spawned
    decreases |lines|
  {
    if lines != [] {
      Sup.NextKeepsInv(s.sup, Sup.Line(c));
      HandleAllSup(w, Handle(w, s, c, lines[0]), c, lines[1..]);
    }
  }

  lemma HandleOk(w: Wire, s: State, c: nat, line: string)
    requires WorldOk(w, s) && c < |s.children| && line in s.children[c].output.lines
    ensures WorldOk(w, Handle(w, s, c, line))
  {
    assert MessageOk(w, s.asked, s.children[c].computed, line);
    match w.readMessage(line) {
      case Some(Answer(k, id, outcome)) =>
        EmptyTableOk(s.asked, s.children, k);
        ReplyOk(w, s.asked, s.children, k, TableOf(s.tables, k), id, outcome);
      case _ =>
    }
  }

  lemma IssueOk(asked: map<Id, Request>, children: seq<Child>, k: Kind, t: Table, call: Call, e: RequestTable.Event)
    requires TableOk(asked, children, k, t) && call.id !in t.issued && call.id in asked && asked[call.id].kind == k
    requires e == RequestTable.Issue(call) || e == IssueFails(call, UNAVAILABLE)
    ensures TableOk(asked, children, k, Next(t, e))
  {
    NextKeepsInv(t, e);
  }

  lemma RejectPendingOk(asked: map<Id, Request>, children: seq<Child>, k: Kind, t: Table)
    requires TableOk(asked, children, k, t)
    ensures TableOk(asked, children, k, Next(t, RejectAll(STOPPED)))
  {
    NextKeepsInv(t, RejectAll(STOPPED));
  }

  // ---------------------------------------------------------------- every run

  /** A step that only replaces child `c` by one that knows at least as much. */
  lemma ChildStepOk(w: Wire, s: State, c: nat, child: Child)
    requires WorldOk(w, s) && c < |s.children| && ChildOk(w, s.asked, child) && s.children[c].computed <= child.computed
    ensures WorldOk(w, s.(children := s.children[c := child]))
  {
    var children := s.children[c := child];
    forall k | k in s.tables
      ensures TableOk(s.asked, children, k, s.tables[k])
    {
      GrownTable(s.asked, s.children, s.asked, children, k, s.tables[k]);
    }
  }

  lemma AskOk(w: Wire, s: State, id: Id, request: Request)
    requires WorldOk(w, s) && id !in s.asked
    ensures WorldOk(w, s.(asked := s.asked[id := request]))
  {
    var asked := s.asked[id := request];
    forall c | 0 <= c < |s.children|
      ensures ChildOk(w, asked, s.children[c])
    {
      GrownChild(w, s.asked, asked, s.children[c]);
    }
    forall k | k in s.tables
      ensures TableOk(asked, s.children, k, s.tables[k])
    {
      GrownTable(s.asked, s.children, asked, s.children, k, s.tables[k]);
    }
  }

  lemma SentOk(w: Wire, s: State, c: nat, command: Command)
    requires Faithful(w) && WorldOk(w, s) && c < |s.children|
    requires command.Ask? ==> AskedAs(s.asked, command.id, command.request)
    ensures WorldOk(w, s.(children := s.children[c := Sent(w, s.children[c], command)]))
  {
    WriteInput(w, s.asked, s.children[c], command);
    ChildStepOk(w, s, c, Sent(w, s.children[c], command));
  }

  lemma TableStepOk(w: Wire, s: State, k: Kind, t: Table)
    requires WorldOk(w, s) && TableOk(s.asked, s.children, k, t)
    ensures WorldOk(w, s.(tables := s.tables[k := t]))
  {
  }

  lemma IssuedOk(w: Wire, s: State, call: Call, request: Request, writable: bool)
    requires Faithful(w) && WorldOk(w, s) && Enabled(s, Event.Issue(call, request, writable))
    ensures WorldOk(w, Issued(w, s, call, request, writable))
  {
    var k := request.kind;
    AskOk(w, s, call.id, request);
    var s1 := s.(asked := s.asked[call.id := request]);
    EmptyTableOk(s1.asked, s1.children, k);
    var e := if CanSend(s, writable) then RequestTable.Issue(call) else IssueFails(call, UNAVAILABLE);
    IssueOk(s1.asked, s1.children, k, TableOf(s.tables, k), call, e);
    var s2 := s1.(tables := s1.tables[k := Next(TableOf(s.tables, k), e)]);
    TableStepOk(w, s1, k, Next(TableOf(s.tables, k), e));
    if CanSend(s, writable) {
      SentOk(w, s2, s.sup.current.id, Ask(call.id, request));
    }
  }

  lemma ToldOk(w: Wire, s: State, text: string, writable: bool)
    requires Faithful(w) && WorldOk(w, s)
    ensures WorldOk(w, Told(w, s, text, writable))
  {
    if CanSend(s, writable) {
      SentOk(w, s, s.sup.current.id, OtherCommand(text));
    }
  }

  lemma RejectingOk(w: Wire, s: State)
    requires WorldOk(w, s)
    ensures WorldOk(w, s.(tables := RejectPending(s.tables)))
  {
    forall k | k in s.tables
      ensures TableOk(s.asked, s.children, k, RejectPending(s.tables)[k])
    {
      RejectPendingOk(s.asked, s.children, k, s.tables[k]);
    }
  }

  lemma SpawnOk(w: Wire, s: State)
    requires WorldOk(w, s)
    ensures WorldOk(w, s.(children := s.children + [NEW_CHILD]))
  {
    var children := s.children + [NEW_CHILD];
    assert EMPTY.Valid() && ChildOk(w, s.asked, NEW_CHILD);
    forall k | k in s.tables
      ensures TableOk(s.asked, children, k, s.tables[k])
    {
      GrownTable(s.asked, s.children, s.asked, children, k, s.tables[k]);
    }
  }

  lemma LifecycleOk(w: Wire, s: State, e: Sup.Event)
    requires WorldOk(w, s)
    ensures WorldOk(w, LifecycleStep(s, e))
  {
    RejectingOk(w, s);
    SpawnOk(w, s);
    SpawnOk(w, s.(tables := RejectPending(s.tables)));
  }

  lemma MainReadsOk(w: Wire, s: State, c: nat, n: nat)
    requires WorldOk(w, s) && Enabled(s, MainReads(c, n))
    ensures WorldOk(w, Step(w, s, MainReads(c, n)))
  {
    var child := s.children[c];
    ReadKeepsValid(child.output, n);
    ArrivalsWereWritten(child.output, n);
    var child' := child.(output := child.output.Read(n));
    ChildStepOk(w, s, c, child');
    HandleAllOk(w, s.(children := s.children[c := child']), c, child.output.Arrivals(n));
  }

  lemma TimedOutOk(w: Wire, s: State, k: Kind, id: Id)
    requires WorldOk(w, s) && id in TableOf(s.tables, k).armed
    ensures WorldOk(w, s.(tables := s.tables[k := Next(TableOf(s.tables, k), Timeout(id))]))
  {
    EmptyTableOk(s.asked, s.children, k);
    NextKeepsInv(TableOf(s.tables, k), Timeout(id));
    TableStepOk(w, s, k, Next(TableOf(s.tables, k), Timeout(id)));
  }

  /** Only lifecycle events and lines read from a child move the supervisor. */
  lemma OthersLeaveSup(w: Wire, s: State, e: Event)
    requires Enabled(s, e) && !e.MainReads? && !e.Lifecycle?
    ensures Step(w, s, e).sup == s.sup && |Step(w, s, e).children| == |s.children|
  {
  }

  lemma ReadingKeepsSup(w: Wire, s: State, c: nat, n: nat)
    requires Sup.Inv(s.sup) && |s.children| == s.sup.spawned && Enabled(s, MainReads(c, n))
    ensures var t := Step(w, s, MainReads(c, n)); Sup.Inv(t.sup) && |t.children| == t.sup.spawned
  {
    var child := s.children[c];
    var s1 := s.(children := s.children[c := child.(output := child.output.Read(n))]);
    HandleAllSup(w, s1, c, child.output.Arrivals(n));
    HandleAllChildren(w, s1, c, child.output.Arrivals(n));
  }

  lemma LifecycleKeepsSup(s: State, e: Sup.Event)
    requires Sup.Inv(s.sup) && |s.children| == s.sup.spawned && Sup.Enabled(s.sup, e)
    ensures var t := LifecycleStep(s, e); Sup.Inv(t.sup) && |t.children| == t.sup.spawned
  {
    Sup.NextKeepsInv(s.sup, e);
  }

  lemma StepKeepsSup(w: Wire, s: State, e: Event)
    requires Sup.Inv(s.sup) && |s.children| == s.sup.spawned && Enabled(s, e)
    ensures var t := Step(w, s, e); Sup.Inv(t.sup) && |t.children| == t.sup.spawned
  {
    if e.MainReads? {
      ReadingKeepsSup(w, s, e.child, e.n);
    } else if e.Lifecycle? {
      LifecycleKeepsSup(s, e.e);
    } else {
      OthersLeaveSup(w, s, e);
    }
  }

  lemma StepKeepsWorld(w: Wire, s: State, e: Event)
    requires Faithful(w) && WorldOk(w, s) && Enabled(s, e)
    ensures WorldOk(w, Step(w, s, e))
  {
    match e {
      case Issue(call, request, writable) => IssuedOk(w, s, call, request, writable);
      case Tell(text, writable) => ToldOk(w, s, text, writable);
      case SidecarReads(c, n) =>
        ReadInput(w, s.asked, s.children[c], n);
        ChildStepOk(w, s, c, ReadCommands(w, s.children[c], n));
      case SidecarAnswers(c, j, outcome) =>
        AnswerJobOk(w, s.asked, s.children[c], j, outcome);
        ChildStepOk(w, s, c, AnswerJob(w, s.children[c], j, outcome));
      case SidecarLists(c, outcome) =>
        AnswerListingOk(w, s.asked, s.children[c], outcome);
        ChildStepOk(w, s, c, AnswerListing(w, s.children[c], outcome));
      case SidecarFails(c, j) => ChildStepOk(w, s, c, FailJob(s.children[c], j));
      case SidecarSays(c, text) =>
        WriteOutput(w, s.asked, s.children[c], OtherMessage(text));
        ChildStepOk(w, s, c, s.children[c].(output := s.children[c].output.Write(w.writeMessage(OtherMessage(text)))));
      case MainReads(c, n) => MainReadsOk(w, s, c, n);
      case TimedOut(k, id) => TimedOutOk(w, s, k, id);
      case Lifecycle(l) => LifecycleOk(w, s, l);
    }
  }

  lemma StepKeepsInv(w: Wire, s: State, e: Event)
    requires Faithful(w) && Inv(w, s) && Enabled(s, e)
    ensures Inv(w, Step(w, s, e))
  {
    StepKeepsSup(w, s, e);
    StepKeepsWorld(w, s, e);
  }

  ghost predicate Legal(w: Wire, s: State, es: seq<Event>)
    decreases |es|
  {
    es != [] ==> Enabled(s, es[0]) && Legal(w, Step(w, s, es[0]), es[1..])
  }

  function Run(w: Wire, s: State, es: seq<Event>): State
    requires Legal(w, s, es)
    decreases |es|
  {
    if es == [] then s else Run(w, Step(w, s, es[0]), es[1..])
  }

  lemma {:induction false} RunKeepsInv(w: Wire, s: State, es: seq<Event>)
    requires Faithful(w) && Inv(w, s) && Legal(w, s, es)
    ensures Inv(w, Run(w, s, es))
    decreases |es|
  {
    if es != [] {
      StepKeepsInv(w, s, es[0]);
      RunKeepsInv(w, Step(w, s, es[0]), es[1..]);
    }
  }

  /** End to end: whatever the chunking, the order of the answers and the restarts, a request that resolves does so
      once, through the queue of its own type, and with a value some sidecar computed for that same request. */
  lemma NeverCrossWired(w: Wire, es: seq<Event>, k: Kind, x: Settlement)
    requires Faithful(w) && Legal(w, INITIAL, es)
    requires k in Run(w, INITIAL, es).tables && x in Run(w, INITIAL, es).tables[k].settled && x.outcome.Resolved?
    ensures var s := Run(w, INITIAL, es);
            && x.id in s.asked && s.asked[x.id].kind == k
            && (exists c :: 0 <= c < |s.children| && Answered(x.id, s.asked[x.id], x.outcome) in s.children[c].computed)
            && (forall y :: y in s.tables[k].settled && y.id == x.id ==> y == x)
            && (forall k' :: k' in s.tables && k' != k ==> x.id !in s.tables[k'].issued)
  {
    RunKeepsInv(w, INITIAL, es);
    var s := Run(w, INITIAL, es);
    var t := s.tables[k];
    assert TableOk(s.asked, s.children, k, t);
    assert x.id in SettledIds(t.settled);
    forall y | y in t.settled && y.id == x.id
      ensures y == x
    {
      var i :| 0 <= i < |t.settled| && t.settled[i] == x;
      var j :| 0 <= j < |t.settled| && t.settled[j] == y;
    }
    forall k' | k' in s.tables && k' != k
      ensures x.id !in s.tables[k'].issued
    {
      assert TableOk(s.asked, s.children, k', s.tables[k']);
    }
  }
}

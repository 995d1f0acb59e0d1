/** The chat-turn machine of packages/cli/src/ipc-server.ts: one turn at a time holds the slot, the agent run behind it
    is a source of callbacks that may finish, fail or be cancelled, and the history has to stay the conversation. */
module ChatTurn {
  import opened Collections

  datatype Role = User | Assistant | System | Tool

  datatype Message = Message(role: Role, content: string)

  /** A turn whose `handleChatSubmit` is still running. `base` is the history its prompt was sent with, `prompt` what it
      will put into the history, `epoch` counts the session commands that came before it. */
  datatype Turn = Turn(turnId: string, base: seq<Message>, prompt: Message, epoch: nat, finished: bool, aborted: bool)

  /** Controllers are numbered in the order they are created; `turns` maps a controller to its running turn. */
  datatype State = State(
    history: seq<Message>,
    activeController: Option<nat>,
    activeTurnId: Option<string>,
    turns: map<nat, Turn>,
    created: nat,
    epoch: nat)

  datatype Event =
    /** A prompt; `begins` says whether taking the file checkpoint returns, which it always does today. */
    | Submit(turnId: string, prompt: Message, begins: bool)
    /** `onFinish`; `captured` says whether recording the design artifact returns. */
    | Finish(controller: nat, compacted: Option<seq<Message>>, news: seq<Message>, captured: bool)
    /** `runAgent` or the attachments settled: the catch block, if it failed, and the finally block run. */
    | End(controller: nat, failed: bool)
    | Cancel(turnId: string)
    | Interrupt
    | SelectSession(parts: seq<Message>)
    | NewSession
    | BranchSession(parts: seq<Message>)
    | DeleteSession(wasActive: bool)

  const INITIAL := State([], None, None, map[], 0, 0)

  function RestoredOne(part: Message): seq<Message> {
    if part.role == User || part.role == Assistant then [part] else []
  }

  /** The parts of a stored session that become history. */
  function Restored(parts: seq<Message>): seq<Message> {
    if parts == [] then []
    else RestoredOne(parts[0]) + Restored(parts[1..])
  }

  function Release(s: State, c: nat): State {
    if s.activeController == Some(c) then s.(activeController := None, activeTurnId := None) else s
  }

  function Abort(s: State): State {
    if s.activeController.Some? && s.activeController.value in s.turns then
      var c := s.activeController.value;
      s.(turns := s.turns[c := s.turns[c].(aborted := true)])
    else s
  }

  function Switched(s: State, history: seq<Message>): State {
    s.(history := history, epoch := s.epoch + 1)
  }

  /** `runAgent` calls `onFinish` at most once, and only before it settles. */
  predicate Enabled(s: State, e: Event) {
    match e
    case Finish(c, _, _, _) => c in s.turns && !s.turns[c].finished
    case End(c, _) => c in s.turns
    case _ => true
  }

  function Next(s: State, e: Event): State
    requires Enabled(s, e)
  {
    match e
    case Submit(turnId, prompt, begins) =>
      if s.activeController.Some? then s
      else
        var c := s.created;
        s.(activeController := Some(c), activeTurnId := Some(turnId), created := c + 1,
           turns := if begins then s.turns[c := Turn(turnId, s.history, prompt, s.epoch, false, false)] else s.turns)
    case Finish(c, compacted, news, captured) =>
      var turn := s.turns[c];
      var history := match compacted
                     case Some(summary) => summary + news
                     case None => s.history + [turn.prompt] + news;
      var t := s.(history := history,
                  turns := s.turns[c := turn.(finished := true)]);
      if captured then Release(t, c) else t
    case End(c, _) => Release(s.(turns := s.turns - {c}), c)
    case Cancel(turnId) => if s.activeTurnId == Some(turnId) then Abort(s) else s
    case Interrupt => Abort(s)
    case SelectSession(parts) => Switched(s, Restored(parts))
    case NewSession => Switched(s, [])
    case BranchSession(parts) => Switched(s, Restored(parts))
    case DeleteSession(wasActive) => if wasActive then Switched(s, []) else s
  }

  ghost predicate Legal(s: State, es: seq<Event>)
    decreases |es|
  {
    es != [] ==> Enabled(s, es[0]) && Legal(Next(s, es[0]), es[1..])
  }

  function Run(s: State, es: seq<Event>): State
    requires Legal(s, es)
    decreases |es|
  {
    if es == [] then s else Run(Next(s, es[0]), es[1..])
  }

  // ---------------------------------------------------------------- the invariant

  /** Controller and turn id are set and cleared together, and belong to the same turn. */
  predicate SlotConsistent(s: State) {
    && (s.activeController.Some? <==> s.activeTurnId.Some?)
    && (s.activeController.Some? ==> s.activeController.value < s.created)
    && (s.activeController.Some? && s.activeController.value in s.turns ==>
          s.activeTurnId == Some(s.turns[s.activeController.value].turnId))
  }

  /** A running turn that has not called `onFinish` holds the slot, so there is at most one. */
  predicate UnfinishedHoldsSlot(s: State) {
    forall c :: c in s.turns ==> c < s.created && (!s.turns[c].finished ==> s.activeController == Some(c))
  }

  /** While a turn is unfinished and no session command has intervened, the history is what its prompt was sent with. */
  predicate BaseIsHistory(s: State) {
    forall c :: c in s.turns && !s.turns[c].finished ==>
                  s.turns[c].epoch <= s.epoch && (s.turns[c].epoch == s.epoch ==> s.history == s.turns[c].base)
  }

  predicate Inv(s: State) {
    SlotConsistent(s) && UnfinishedHoldsSlot(s) && BaseIsHistory(s)
  }

  lemma NextKeepsInv(s: State, e: Event)
    requires Inv(s) && Enabled(s, e)
    ensures Inv(Next(s, e))
  {
  }

  lemma {:induction false} RunKeepsInv(s: State, es: seq<Event>)
    requires Inv(s) && Legal(s, es)
    ensures Inv(Run(s, es))
    decreases |es|
  {
    if es != [] {
      NextKeepsInv(s, es[0]);
      RunKeepsInv(Next(s, es[0]), es[1..]);
    }
  }

  // ---------------------------------------------------------------- the slot over a run

  predicate SettlesTurn(e: Event, c: nat) {
    (e.Finish? || e.End?) && e.controller == c
  }

  /** Only the turn's own finish or end ever frees its slot; until then every other prompt is refused. */
  lemma {:induction false} OnlyTheOwnerReleases(s: State, es: seq<Event>, c: nat)
    requires Inv(s) && Legal(s, es) && s.activeController == Some(c)
    requires forall e :: e in es ==> !SettlesTurn(e, c)
    ensures Run(s, es).activeController == Some(c) && Run(s, es).created == s.created
    ensures forall d :: d in Run(s, es).turns ==> d in s.turns
    decreases |es|
  {
    if es != [] {
      assert es[0] in es;
      NextKeepsInv(s, es[0]);
      OnlyTheOwnerReleases(Next(s, es[0]), es[1..], c);
    }
  }

  /** Once a turn has ended its slot is free, and it never takes it again. */
  lemma {:induction false} EndedTurnStaysReleased(s: State, es: seq<Event>, c: nat)
    requires Inv(s) && Legal(s, es) && c < s.created && s.activeController != Some(c)
    ensures Run(s, es).activeController != Some(c)
    decreases |es|
  {
    if es != [] {
      NextKeepsInv(s, es[0]);
      EndedTurnStaysReleased(Next(s, es[0]), es[1..], c);
    }
  }

  /** No turn comes back, and none is taken up under a number used before. */
  lemma {:induction false} EndedTurnStaysEnded(s: State, es: seq<Event>, c: nat)
    requires Inv(s) && Legal(s, es) && c < s.created && c !in s.turns
    ensures c !in Run(s, es).turns
    decreases |es|
  {
    if es != [] {
      NextKeepsInv(s, es[0]);
      EndedTurnStaysEnded(Next(s, es[0]), es[1..], c);
    }
  }

  /** A turn that has ended never runs and never holds the slot again. */
  lemma EndReleases(s: State, c: nat, failed: bool, es: seq<Event>)
    requires Inv(s) && c in s.turns && Legal(Next(s, End(c, failed)), es)
    ensures Run(Next(s, End(c, failed)), es).activeController != Some(c)
    ensures c !in Run(Next(s, End(c, failed)), es).turns
  {
    NextKeepsInv(s, End(c, failed));
    EndedTurnStaysReleased(Next(s, End(c, failed)), es, c);
    EndedTurnStaysEnded(Next(s, End(c, failed)), es, c);
  }

  // ---------------------------------------------------------------- a turn as seen by the conversation

  predicate SessionCommand(e: Event) {
    e.SelectSession? || e.NewSession? || e.BranchSession? || e.DeleteSession?
  }

  predicate Quiet(e: Event, c: nat) {
    !SessionCommand(e) && !SettlesTurn(e, c)
  }

  /** Between a turn's acceptance and its finish, nothing but session commands can touch its history. */
  lemma {:induction false} NothingInterferes(s: State, es: seq<Event>, c: nat)
    requires Inv(s) && Legal(s, es) && c in s.turns && !s.turns[c].finished
    requires forall e :: e in es ==> Quiet(e, c)
    ensures Run(s, es).history == s.history && Run(s, es).epoch == s.epoch && Run(s, es).activeController == Some(c)
    ensures c in Run(s, es).turns && Run(s, es).turns[c].(aborted := false) == s.turns[c].(aborted := false)
    decreases |es|
  {
    if es != [] {
      assert es[0] in es && Quiet(es[0], c);
      NextKeepsInv(s, es[0]);
      NothingInterferes(Next(s, es[0]), es[1..], c);
    }
  }

  /** The history a finishing turn leaves behind when it was sent with `base`. */
  function Concluded(
      base: seq<Message>, prompt: Message, compacted: Option<seq<Message>>, news: seq<Message>): seq<Message>
  {
    match compacted
    case Some(summary) => summary + news
    case None => base + [prompt] + news
  }

  /** A turn is atomic: whatever else happens meanwhile, its finish turns the history it was accepted with into
      that history, its prompt and the new messages, or the compacted history and the new messages. */
  lemma FinishedTurnIsAtomic(s: State, turnId: string, prompt: Message, es: seq<Event>, compacted: Option<seq<Message>>,
                             news: seq<Message>, captured: bool)
    requires Inv(s) && s.activeController == None
    requires var t := Next(s, Submit(turnId, prompt, true)); Legal(t, es)
    requires forall e :: e in es ==> Quiet(e, s.created)
    ensures var u := Run(Next(s, Submit(turnId, prompt, true)), es);
            && Enabled(u, Finish(s.created, compacted, news, captured))
            && Next(u, Finish(s.created, compacted, news, captured)).history
               == Concluded(s.history, prompt, compacted, news)
            && (Next(u, Finish(s.created, compacted, news, captured)).activeController == None <==> captured)
  {
    NextKeepsInv(s, Submit(turnId, prompt, true));
    NothingInterferes(Next(s, Submit(turnId, prompt, true)), es, s.created);
  }

  /** What one finishing turn did: the history its prompt was sent with, and what it put there. */
  datatype Commit = Commit(base: seq<Message>, prompt: Message, compacted: Option<seq<Message>>, news: seq<Message>)

  function Commits(s: State, es: seq<Event>): seq<Commit>
    requires Legal(s, es)
    decreases |es|
  {
    if es == [] then []
    else
      (match es[0]
       case Finish(c, compacted, news, _) => [Commit(s.turns[c].base, s.turns[c].prompt, compacted, news)]
       case _ => [])
      + Commits(Next(s, es[0]), es[1..])
  }

  /** Each commit starts from what the one before it left. */
  predicate Serial(history: seq<Message>, commits: seq<Commit>)
    decreases |commits|
  {
    commits != [] ==>
      var c := commits[0];
      c.base == history && Serial(Concluded(c.base, c.prompt, c.compacted, c.news), commits[1..])
  }

  function Outcome(history: seq<Message>, commits: seq<Commit>): seq<Message>
    decreases |commits|
  {
    if commits == [] then history
    else
      var c := commits[0];
      Outcome(Concluded(c.base, c.prompt, c.compacted, c.news), commits[1..])
  }

  predicate SameEpoch(s: State) {
    forall c :: c in s.turns && !s.turns[c].finished ==> s.turns[c].epoch == s.epoch
  }

  /** Without session commands only a finishing turn changes the history, and it was sent with the one it changes. */
  lemma OnlyFinishingCommits(s: State, e: Event)
    requires Inv(s) && SameEpoch(s) && Enabled(s, e) && !SessionCommand(e)
    ensures SameEpoch(Next(s, e))
    ensures e.Finish? ==>
              && s.turns[e.controller].base == s.history
              && Next(s, e).history == Concluded(s.history, s.turns[e.controller].prompt, e.compacted, e.news)
    ensures !e.Finish? ==> Next(s, e).history == s.history
  {
  }

  lemma CommitsOneMore(s: State, es: seq<Event>, rest: seq<Commit>)
    requires es != [] && Legal(s, es) && rest == Commits(Next(s, es[0]), es[1..])
    ensures !es[0].Finish? ==> Commits(s, es) == rest
    ensures es[0].Finish? ==>
              var t := s.turns[es[0].controller];
              && Commits(s, es) == [Commit(t.base, t.prompt, es[0].compacted, es[0].news)] + rest
              && Commits(s, es)[1..] == rest
  {
  }

  /** Without session commands a conversation is serial: every reply was computed from exactly the history it was then
      appended to, in one chain from the first history to the last, however the turns overlap, fail or are cancelled. */
  lemma {:induction false} ConversationIsSerial(s: State, es: seq<Event>)
    requires Inv(s) && SameEpoch(s) && Legal(s, es) && forall e :: e in es ==> !SessionCommand(e)
    ensures Serial(s.history, Commits(s, es)) && Run(s, es).history == Outcome(s.history, Commits(s, es))
    decreases |es|
  {
    if es != [] {
      assert es[0] in es;
      NextKeepsInv(s, es[0]);
      OnlyFinishingCommits(s, es[0]);
      CommitsOneMore(s, es, Commits(Next(s, es[0]), es[1..]));
      ConversationIsSerial(Next(s, es[0]), es[1..]);
    }
  }

  /** A turn that ends without having finished leaves the history as it was, and the slot free. */
  lemma FailedTurnLeavesNoTrace(s: State, turnId: string, prompt: Message, es: seq<Event>, failed: bool)
    requires Inv(s) && s.activeController == None
    requires var t := Next(s, Submit(turnId, prompt, true)); Legal(t, es)
    requires forall e :: e in es ==> Quiet(e, s.created)
    ensures var u := Run(Next(s, Submit(turnId, prompt, true)), es);
            && Enabled(u, End(s.created, failed))
            && Next(u, End(s.created, failed)).history == s.history
            && Next(u, End(s.created, failed)).activeController == None
  {
    NextKeepsInv(s, Submit(turnId, prompt, true));
    NothingInterferes(Next(s, Submit(turnId, prompt, true)), es, s.created);
  }

  /** Cancelling by id aborts the turn of that id and no other, and leaves slot and history alone. */
  lemma CancelHitsOnlyItsTurn(s: State, turnId: string, c: nat)
    requires Inv(s) && c in s.turns
    ensures Next(s, Cancel(turnId)).turns[c].aborted <==>
            s.turns[c].aborted || (s.activeController == Some(c) && s.turns[c].turnId == turnId)
    ensures Next(s, Cancel(turnId)).history == s.history
    ensures Next(s, Cancel(turnId)).activeController == s.activeController
  {
  }

  /** What aborts the running turn of this id. */
  predicate Cancels(e: Event, turnId: string) {
    e == Cancel(turnId) || e == Interrupt
  }

  lemma CancelStep(s: State, e: Event, c: nat)
    requires Inv(s) && Enabled(s, e) && c in s.turns && s.activeController == Some(c) && !SettlesTurn(e, c)
    ensures c in Next(s, e).turns && Next(s, e).activeController == Some(c)
    ensures Next(s, e).turns[c].turnId == s.turns[c].turnId
    ensures Next(s, e).turns[c].aborted <==> s.turns[c].aborted || Cancels(e, s.turns[c].turnId)
  {
  }

  lemma {:induction false} AbortedExactlyByCancels(s: State, es: seq<Event>, c: nat)
    requires Inv(s) && Legal(s, es) && c in s.turns && s.activeController == Some(c)
    requires forall e :: e in es ==> !SettlesTurn(e, c)
    ensures c in Run(s, es).turns
    ensures Run(s, es).turns[c].aborted <==>
            s.turns[c].aborted || exists e :: e in es && Cancels(e, s.turns[c].turnId)
    decreases |es|
  {
    if es != [] {
      var turnId := s.turns[c].turnId;
      assert es[0] in es;
      NextKeepsInv(s, es[0]);
      CancelStep(s, es[0], c);
      AbortedExactlyByCancels(Next(s, es[0]), es[1..], c);
      assert forall e :: e in es <==> e == es[0] || e in es[1..];
    }
  }

  /** Over any run, until it settles, an accepted turn is aborted exactly if it was cancelled by the id it was submitted
      with or interrupted; cancels that name other turns never reach it. */
  lemma CancelledExactlyByItsId(s: State, turnId: string, prompt: Message, es: seq<Event>)
    requires Inv(s) && s.activeController == None
    requires var t := Next(s, Submit(turnId, prompt, true)); Legal(t, es)
    requires forall e :: e in es ==> !SettlesTurn(e, s.created)
    ensures var u := Run(Next(s, Submit(turnId, prompt, true)), es);
            && s.created in u.turns
            && (u.turns[s.created].aborted <==> exists e :: e in es && Cancels(e, turnId))
  {
    NextKeepsInv(s, Submit(turnId, prompt, true));
    AbortedExactlyByCancels(Next(s, Submit(turnId, prompt, true)), es, s.created);
  }

  // ---------------------------------------------------------------- switching sessions during a turn

  /** The history an event makes of any other, if it switches sessions. */
  function SwitchedTo(e: Event): Option<seq<Message>> {
    match e
    case SelectSession(parts) => Some(Restored(parts))
    case NewSession => Some([])
    case BranchSession(parts) => Some(Restored(parts))
    case DeleteSession(wasActive) => if wasActive then Some([]) else None
    case _ => None
  }

  /** The history left by the last session command among the events, if one of them took effect. */
  function LastSwitch(es: seq<Event>): Option<seq<Message>> {
    if es == [] then None
    else if LastSwitch(es[1..]).Some? then LastSwitch(es[1..])
    else SwitchedTo(es[0])
  }

  function OrElse(switched: Option<seq<Message>>, history: seq<Message>): seq<Message> {
    if switched.Some? then switched.value else history
  }

  lemma SwitchStep(s: State, e: Event, c: nat)
    requires Inv(s) && Enabled(s, e) && c in s.turns && !s.turns[c].finished && !SettlesTurn(e, c)
    ensures Next(s, e).history == OrElse(SwitchedTo(e), s.history)
    ensures c in Next(s, e).turns && Next(s, e).turns[c].(aborted := false) == s.turns[c].(aborted := false)
  {
  }

  /** Until a turn settles, the last effective session command alone decides the history. */
  lemma {:induction false} LastSwitchDecides(s: State, es: seq<Event>, c: nat)
    requires Inv(s) && Legal(s, es) && c in s.turns && !s.turns[c].finished
    requires forall e :: e in es ==> !SettlesTurn(e, c)
    ensures Run(s, es).history == OrElse(LastSwitch(es), s.history)
    ensures c in Run(s, es).turns && Run(s, es).turns[c].(aborted := false) == s.turns[c].(aborted := false)
    decreases |es|
  {
    if es != [] {
      assert es[0] in es;
      NextKeepsInv(s, es[0]);
      SwitchStep(s, es[0], c);
      LastSwitchDecides(Next(s, es[0]), es[1..], c);
    }
  }

  lemma SameFront(a: seq<Message>, b: seq<Message>, back: seq<Message>)
    ensures a + back == b + back <==> a == b
  {
    if a + back == b + back {
      assert (a + back)[..|a|] == a && (b + back)[..|b|] == b;
    }
  }

  /** What a finishing turn leaves when sessions were switched meanwhile: a compacted turn overwrites the new session's
      history with the old one's summary, any other is appended to it. So a turn is atomic exactly if it compacts, or no
      session command took effect, or the last one left the very history the turn was accepted with. */
  lemma AtomicExactlyUnlessSwitched(s: State, turnId: string, prompt: Message, es: seq<Event>,
                                    compacted: Option<seq<Message>>, news: seq<Message>, captured: bool)
    requires Inv(s) && s.activeController == None
    requires var t := Next(s, Submit(turnId, prompt, true)); Legal(t, es)
    requires forall e :: e in es ==> !SettlesTurn(e, s.created)
    ensures var u := Run(Next(s, Submit(turnId, prompt, true)), es);
            var finish := Finish(s.created, compacted, news, captured);
            && Enabled(u, finish)
            && Next(u, finish).history == Concluded(OrElse(LastSwitch(es), s.history), prompt, compacted, news)
            && (Next(u, finish).history == Concluded(s.history, prompt, compacted, news) <==>
                  compacted.Some? || LastSwitch(es).None? || LastSwitch(es) == Some(s.history))
  {
    NextKeepsInv(s, Submit(turnId, prompt, true));
    LastSwitchDecides(Next(s, Submit(turnId, prompt, true)), es, s.created);
    var switched := OrElse(LastSwitch(es), s.history);
    Regroup(switched, prompt, news);
    Regroup(s.history, prompt, news);
    SameFront(switched, s.history, [prompt] + news);
  }

  lemma Regroup(history: seq<Message>, prompt: Message, news: seq<Message>)
    ensures history + [prompt] + news == history + ([prompt] + news)
  {
  }

  /** A new session during a turn: it starts with the old session's prompt, or with its summary if the turn compacts. */
  lemma SwitchDuringTurnMixesSessions(
      s: State, turnId: string, prompt: Message, summary: seq<Message>, news: seq<Message>)
    requires Inv(s) && s.activeController == None
    ensures var t := Next(Next(s, Submit(turnId, prompt, true)), NewSession);
            && Enabled(t, Finish(s.created, None, news, true))
            && Next(t, Finish(s.created, None, news, true)).history == [prompt] + news
            && (Next(t, Finish(s.created, None, news, true)).history == Concluded(s.history, prompt, None, news)
                <==> s.history == [])
            && Next(t, Finish(s.created, Some(summary), news, true)).history == summary + news
  {
    var t := Next(s, Submit(turnId, prompt, true));
    assert [NewSession][1..] == [];
    assert Run(Next(t, NewSession), []) == Next(t, NewSession);
    assert Run(t, [NewSession]) == Next(t, NewSession);
    assert LastSwitch([NewSession]) == Some([]);
    AtomicExactlyUnlessSwitched(s, turnId, prompt, [NewSession], None, news, true);
    AtomicExactlyUnlessSwitched(s, turnId, prompt, [NewSession], Some(summary), news, true);
    assert [] + [prompt] + news == [prompt] + news;
  }

  // ---------------------------------------------------------------- every accepted turn frees the slot

  /** The slot belongs to a turn that is still running. */
  predicate NoLeak(s: State) {
    s.activeController.Some? ==> s.activeController.value in s.turns
  }

  /** Taking the checkpoint returns whenever a prompt is submitted, as it does today: it only reads a length. */
  predicate AllBegin(es: seq<Event>) {
    forall e :: e in es && e.Submit? ==> e.begins
  }

  /** One step loses the slot in exactly one way: it is taken, and then taking the checkpoint, which is outside the try
      block, throws. */
  lemma LeaksExactlyWhenBeginThrows(s: State, e: Event)
    requires Inv(s) && Enabled(s, e) && NoLeak(s)
    ensures NoLeak(Next(s, e)) <==> !(e.Submit? && !e.begins && s.activeController == None)
  {
  }

  lemma {:induction false} NoRunLeaks(s: State, es: seq<Event>)
    requires Inv(s) && NoLeak(s) && Legal(s, es) && AllBegin(es)
    ensures NoLeak(Run(s, es))
    decreases |es|
  {
    if es != [] {
      assert es[0] in es;
      NextKeepsInv(s, es[0]);
      LeaksExactlyWhenBeginThrows(s, es[0]);
      NoRunLeaks(Next(s, es[0]), es[1..]);
    }
  }

  /** After any run from program start, whoever holds the slot can still end, and the slot is free once it has; when no
      turn is running the slot is free, and the next prompt takes it. */
  lemma SlotIsAlwaysFreed(es: seq<Event>, failed: bool, turnId: string, prompt: Message)
    requires Legal(INITIAL, es) && AllBegin(es)
    ensures var s := Run(INITIAL, es);
            && (s.activeController.Some? ==>
                  var end := End(s.activeController.value, failed);
                  Enabled(s, end) && Next(s, end).activeController == None && Next(s, end).history == s.history)
            && (s.turns == map[] ==> s.activeController == None)
            && (s.activeController == None ==>
                  Next(s, Submit(turnId, prompt, true)).activeController == Some(s.created)
                  && s.created in Next(s, Submit(turnId, prompt, true)).turns)
  {
    NoRunLeaks(INITIAL, es);
  }

  /** What a checkpoint that throws would do: the slot it leaves taken is never freed, and every later prompt is
      refused. */
  lemma {:induction false} LeakedSlotIsStuck(s: State, es: seq<Event>)
    requires Inv(s) && !NoLeak(s) && Legal(s, es)
    ensures !NoLeak(Run(s, es)) && Run(s, es).created == s.created
    decreases |es|
  {
    if es != [] {
      NextKeepsInv(s, es[0]);
      LeakedSlotIsStuck(Next(s, es[0]), es[1..]);
    }
  }

  lemma RestoredCons(part: Message, parts: seq<Message>)
    ensures Restored([part] + parts) == RestoredOne(part) + Restored(parts)
  {
    assert ([part] + parts)[1..] == parts;
  }

  lemma {:induction false} RestoredAppend(parts: seq<Message>, more: seq<Message>)
    ensures Restored(parts + more) == Restored(parts) + Restored(more)
  {
    if parts == [] {
      assert parts + more == more;
    } else {
      RestoredAppend(parts[1..], more);
      RestoredCons(parts[0], parts[1..] + more);
      RestoredCons(parts[0], parts[1..]);
      assert parts == [parts[0]] + parts[1..];
      assert parts + more == [parts[0]] + (parts[1..] + more);
      Associative(RestoredOne(parts[0]), Restored(parts[1..]), Restored(more));
    }
  }

  lemma Associative(a: seq<Message>, b: seq<Message>, c: seq<Message>)
    ensures (a + b) + c == a + (b + c)
  {
  }

  lemma {:induction false} RestoredHas(parts: seq<Message>, m: Message)
    ensures m in Restored(parts) <==> m in parts && m.role in {User, Assistant}
  {
    if parts != [] {
      RestoredHas(parts[1..], m);
      assert m in parts <==> m == parts[0] || m in parts[1..];
    }
  }

  /** Selecting a session restores exactly what its user and the assistant said, in order. */
  lemma RestoresTheDialogue(s: State, parts: seq<Message>, more: seq<Message>, m: Message)
    ensures Next(s, SelectSession(parts + more)).history
            == Next(s, SelectSession(parts)).history + Next(s, SelectSession(more)).history
    ensures m in Next(s, SelectSession(parts)).history <==> m in parts && (m.role == User || m.role == Assistant)
    ensures Next(s, BranchSession(parts)).history == Next(s, SelectSession(parts)).history
  {
    RestoredAppend(parts, more);
    RestoredHas(parts, m);
  }

  // ---------------------------------------------------------------- the program

  lemma RestoredStep(done: seq<Message>, parts: seq<Message>, i: nat)
    requires i < |parts|
    ensures done + Restored(parts[i..])
         == (if parts[i].role == User || parts[i].role == Assistant then done + [parts[i]] else done)
            + Restored(parts[i + 1..])
  {
    assert parts[i..][1..] == parts[i + 1..];
    Associative(done, RestoredOne(parts[i]), Restored(parts[i + 1..]));
    assert RestoredOne(parts[i]) == [] ==> done + RestoredOne(parts[i]) == done;
  }

  class Sidecar {
    var history: seq<Message>
    var sessionId: string
    var activeController: Option<nat>
    var activeTurnId: Option<string>
    var turns: map<nat, Turn>
    var created: nat
    var epoch: nat

    ghost function Now(): State
      reads this
    {
      State(history, activeController, activeTurnId, turns, created, epoch)
    }

    constructor (sessionId: string)
      ensures Now() == INITIAL && Inv(Now())
    {
      history, this.sessionId, activeController, activeTurnId := [], sessionId, None, None;
      turns, created, epoch := map[], 0, 0;
    }

    /** `handleChatSubmit` up to the start of the agent run: refuse, or take the slot. */
    method ChatSubmit(turnId: string, prompt: Message, begins: bool) returns (refused: bool)
      requires Inv(Now())
      modifies this
      ensures Inv(Now()) && Now() == Next(old(Now()), Submit(turnId, prompt, begins))
      ensures refused <==> old(activeController).Some?
      ensures !refused && begins ==> old(created) in turns && turns[old(created)].base == old(history)
    {
      NextKeepsInv(Now(), Submit(turnId, prompt, begins));
      if activeController.Some? {
        return true;
      }
      refused := false;
      var controller := created;
      created := created + 1;
      activeController := Some(controller);
      activeTurnId := Some(turnId);
      if begins {
        turns := turns[controller := Turn(turnId, history, prompt, epoch, false, false)];
      }
    }

    method OnFinish(controller: nat, compacted: Option<seq<Message>>, news: seq<Message>, captured: bool)
      requires Inv(Now()) && controller in turns && !turns[controller].finished
      modifies this
      ensures Inv(Now()) && Now() == Next(old(Now()), Finish(controller, compacted, news, captured))
    {
      NextKeepsInv(Now(), Finish(controller, compacted, news, captured));
      match compacted {
        case Some(summary) => history := summary + news;
        case None => history := history + [turns[controller].prompt] + news;
      }
      turns := turns[controller := turns[controller].(finished := true)];
      if !captured {
        return;
      }
      if activeController == Some(controller) {
        activeController := None;
        activeTurnId := None;
      }
    }

    /** The catch block, if the run failed, then the finally block. */
    method TurnSettled(controller: nat, failed: bool)
      requires Inv(Now()) && controller in turns
      modifies this
      ensures Inv(Now()) && Now() == Next(old(Now()), End(controller, failed))
    {
      NextKeepsInv(Now(), End(controller, failed));
      if failed && activeController == Some(controller) {
        activeController := None;
        activeTurnId := None;
      }
      if activeController == Some(controller) {
        activeController := None;
        activeTurnId := None;
      }
      turns := turns - {controller};
    }

    method ChatCancel(turnId: string)
      requires Inv(Now())
      modifies this
      ensures Inv(Now()) && Now() == Next(old(Now()), Cancel(turnId))
    {
      NextKeepsInv(Now(), Cancel(turnId));
      if activeTurnId == Some(turnId) && activeController.Some? && activeController.value in turns {
        turns := turns[activeController.value := turns[activeController.value].(aborted := true)];
      }
    }

    /** The same restored turns become the history and are sent back. */
    method SessionSelect(id: string, parts: seq<Message>) returns (messages: seq<Message>)
      requires Inv(Now())
      modifies this
      ensures Inv(Now()) && Now() == Next(old(Now()), SelectSession(parts))
      ensures messages == history && sessionId == id
    {
      NextKeepsInv(Now(), SelectSession(parts));
      sessionId := id;
      epoch := epoch + 1;
      history := [];
      messages := [];
      var i := 0;
      while i < |parts|
        invariant 0 <= i <= |parts|
        invariant history + Restored(parts[i..]) == Restored(parts)
        invariant messages == history && sessionId == id
        invariant unchanged(`activeController) && unchanged(`activeTurnId) && unchanged(`turns) && unchanged(`created)
        invariant epoch == old(epoch) + 1
      {
        RestoredStep(history, parts, i);
        if parts[i].role == User || parts[i].role == Assistant {
          history := history + [parts[i]];
          messages := messages + [parts[i]];
        }
        i := i + 1;
      }
      assert parts[i..] == [];
    }

    method SessionDelete(id: string, newId: string) returns (wasActive: bool)
      requires Inv(Now())
      modifies this
      ensures Inv(Now()) && Now() == Next(old(Now()), DeleteSession(wasActive))
      ensures wasActive <==> id == old(sessionId)
      ensures sessionId == if wasActive then newId else old(sessionId)
    {
      wasActive := id == sessionId;
      NextKeepsInv(Now(), DeleteSession(wasActive));
      if wasActive {
        sessionId := newId;
        epoch := epoch + 1;
        history := [];
      }
    }
  }
}

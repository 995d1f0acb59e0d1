/** The sidecar supervisor of apps/desktop/src/main.ts: spawning, restarting with bounded exponential back-off,
    and ignoring lifecycle events of replaced children. Children are numbered in the order they are spawned. */
module Supervisor {

  datatype Current = NoChild | Child(id: nat)

  datatype Message = Starting | ReconnectingIn(seconds: nat) | GaveUp | FailedToStart | Exited | NoMessage

  datatype Status = Status(connected: bool, message: Message)

  /** What the restart counter did: it was set back to zero, or a restart was armed with a delay. */
  datatype Mark = Reset | Arm(delayMs: nat)

  /** The module variables, followed by the history the properties talk about. `restartTimer` says whether the variable
      is non-null, `timerArmed` whether the timer can still fire: quitting clears the one and not the other. */
  datatype State = State(
    current: Current,
    attempts: nat,
    restartTimer: bool,
    timerArmed: bool,
    quitting: bool,
    suspended: bool,
    status: Status,
    ready: bool,
    spawned: nat,
    killed: set<nat>,
    marks: seq<Mark>)

  datatype Event =
    | Ready
    | ChildSpawned(child: nat)
    | ChildError(child: nat)
    | ChildExit(child: nat)
    | Line(child: nat)
    | TimerFires
    | Retry
    | ChooseWorkspace
    | WindowAllClosed(darwin: bool)
    | Activate
    | BeforeQuit

  const INITIAL := State(NoChild, 0, false, false, false, false, Status(false, Starting), false, 0, {}, [])

  function Pow2(n: nat): nat {
    if n == 0 then 1 else 2 * Pow2(n - 1)
  }

  // ---------------------------------------------------------------- the functions of main.ts

  function Started(s: State): State {
    if s.quitting || s.suspended || s.current.Child? then s
    else s.(status := Status(false, Starting), current := Child(s.spawned), spawned := s.spawned + 1)
  }

  function RestartScheduled(s: State): State {
    if s.quitting || s.suspended || s.restartTimer then s
    else if s.attempts >= 3 then s.(status := Status(false, GaveUp))
    else
      var delay := 1000 * Pow2(s.attempts);
      s.(attempts := s.attempts + 1, status := Status(false, ReconnectingIn((delay + 999) / 1000)),
         restartTimer := true, timerArmed := true, marks := s.marks + [Arm(delay)])
  }

  function Kill(s: State): State {
    if s.current.Child? then s.(killed := s.killed + {s.current.id}) else s
  }

  function Restarted(s: State): State {
    Started(Cleared(s))
  }

  /** The state of a restart before it starts a new child. */
  function Cleared(s: State): State {
    Kill(s).(attempts := 0, restartTimer := false, timerArmed := false, current := NoChild, marks := s.marks + [Reset])
  }

  function OnExit(s: State): State {
    RestartScheduled(s.(current := NoChild, status := Status(false, Exited)))
  }

  function OnError(s: State): State {
    s.(current := NoChild, status := Status(false, FailedToStart))
  }

  function OnMessage(s: State): State {
    s.(attempts := 0, marks := s.marks + [Reset],
       status := if s.status.connected then s.status else Status(true, NoMessage))
  }

  /** Only events of children that were spawned happen, and only an armed timer fires. */
  predicate Enabled(s: State, e: Event) {
    match e
    case ChildSpawned(c) => c < s.spawned
    case ChildError(c) => c < s.spawned
    case ChildExit(c) => c < s.spawned
    case Line(c) => c < s.spawned
    case TimerFires => s.timerArmed
    case _ => true
  }

  function Next(s: State, e: Event): State {
    match e
    case Ready => Started(s.(ready := true))
    case ChildSpawned(c) => if s.current == Child(c) then s.(status := Status(true, NoMessage)) else s
    case ChildError(c) => if s.current == Child(c) then OnError(s) else s
    case ChildExit(c) => if s.current == Child(c) then OnExit(s) else s
    case Line(_) => OnMessage(s)
    case TimerFires => Started(s.(restartTimer := false, timerArmed := false))
    case Retry => if s.status.message == Starting then s else Restarted(s)
    case ChooseWorkspace => Restarted(s)
    case WindowAllClosed(darwin) => Kill(s.(suspended := true, quitting := s.quitting || !darwin))
    case Activate => Started(s.(suspended := false, ready := true))
    case BeforeQuit => Kill(s.(quitting := true, timerArmed := false))
  }

  ghost predicate Legal(s: State, es: seq<Event>)
    decreases |es|
  {
    es != [] ==> Enabled(s, es[0]) && Legal(Next(s, es[0]), es[1..])
  }

  function Run(s: State, es: seq<Event>): State
    decreases |es|
  {
    if es == [] then s else Run(Next(s, es[0]), es[1..])
  }

  // ---------------------------------------------------------------- the invariant of every run

  /** The delays armed since the counter was last set back. */
  function ArmedSinceReset(marks: seq<Mark>): seq<nat> {
    if marks == [] || marks[|marks| - 1].Reset? then []
    else ArmedSinceReset(marks[..|marks| - 1]) + [marks[|marks| - 1].delayMs]
  }

  predicate BackOff(s: State) {
    s.attempts <= 3 && ArmedSinceReset(s.marks) == [1000, 2000, 4000][..s.attempts]
  }

  predicate NewestIsCurrent(s: State) {
    s.current.Child? ==> s.current.id + 1 == s.spawned
  }

  predicate TimerVariable(s: State) {
    && (s.timerArmed ==> s.restartTimer)
    && (s.restartTimer && !s.timerArmed ==> s.quitting)
  }

  predicate Active(s: State) {
    s.ready && !s.quitting && !s.suspended
  }

  /** Expected to work, but with neither a child nor a restart on its way. */
  predicate Idle(s: State) {
    Active(s) && s.current.NoChild? && !s.timerArmed
  }

  /** An idle supervisor shows why, unless a line of a child that is gone has replaced the message by "connected";
      and an active one only claims to be starting while there is a child. */
  predicate NeverStuck(s: State) {
    && (Idle(s) ==> s.status in {Status(false, GaveUp), Status(false, FailedToStart), Status(true, NoMessage)})
    && (Active(s) && s.status.message == Starting ==> s.current.Child?)
  }

  predicate Inv(s: State) {
    NewestIsCurrent(s) && BackOff(s) && TimerVariable(s) && NeverStuck(s)
  }

  lemma StartKeepsInv(s: State)
    requires NewestIsCurrent(s) && BackOff(s) && TimerVariable(s)
    ensures Inv(Started(s))
  {
  }

  lemma ResetIsBackOff(marks: seq<Mark>)
    ensures ArmedSinceReset(marks + [Reset]) == []
  {
  }

  lemma ArmExtends(marks: seq<Mark>, delay: nat)
    ensures ArmedSinceReset(marks + [Arm(delay)]) == ArmedSinceReset(marks) + [delay]
  {
    assert (marks + [Arm(delay)])[..|marks|] == marks;
  }

  lemma ScheduleKeepsBackOff(s: State)
    requires BackOff(s)
    ensures BackOff(RestartScheduled(s))
  {
    if !(s.quitting || s.suspended || s.restartTimer) && s.attempts < 3 {
      ArmExtends(s.marks, 1000 * Pow2(s.attempts));
      assert Pow2(0) == 1 && Pow2(1) == 2 && Pow2(2) == 4;
    }
  }

  lemma ExitKeepsInv(s: State, c: nat)
    requires Inv(s) && s.current == Child(c)
    ensures Inv(Next(s, ChildExit(c)))
  {
    ScheduleKeepsBackOff(s.(current := NoChild, status := Status(false, Exited)));
  }

  lemma KillKeepsInv(s: State, quitting: bool, suspended: bool, timerArmed: bool)
    requires Inv(s) && (s.quitting ==> quitting) && (quitting || suspended)
    requires timerArmed == s.timerArmed || (quitting && !timerArmed)
    ensures Inv(Kill(s.(quitting := quitting, suspended := suspended, timerArmed := timerArmed)))
  {
  }

  lemma NextKeepsInv(s: State, e: Event)
    requires Inv(s) && Enabled(s, e)
    ensures Inv(Next(s, e))
  {
    match e {
      case Ready => StartKeepsInv(s.(ready := true));
      case TimerFires => StartKeepsInv(s.(restartTimer := false, timerArmed := false));
      case Activate => StartKeepsInv(s.(suspended := false, ready := true));
      case Line(_) => ResetIsBackOff(s.marks);
      case Retry => if s.status.message != Starting { RestartKeepsInv(s); }
      case ChooseWorkspace => RestartKeepsInv(s);
      case ChildExit(c) => if s.current == Child(c) { ExitKeepsInv(s, c); }
      case WindowAllClosed(darwin) => KillKeepsInv(s, s.quitting || !darwin, true, s.timerArmed);
      case BeforeQuit => KillKeepsInv(s, true, s.suspended, false);
      case ChildSpawned(_) =>
      case ChildError(_) =>
    }
  }

  lemma RestartKeepsInv(s: State)
    requires Inv(s)
    ensures Inv(Restarted(s))
  {
    ResetIsBackOff(s.marks);
    StartKeepsInv(Cleared(s));
  }

  lemma {:induction false} RunKeepsInv(s: State, es: seq<Event>)
    requires Inv(s) && Legal(s, es)
    ensures Inv(Run(s, es))
    decreases |es|
  {
    if es != [] {
      NextKeepsInv(s, es[0]);
      RunKeepsInv(Next(s, es[0]), es[1..]);
    }
  }

  // ---------------------------------------------------------------- no orphans

  /** The children whose exit or error event is among `es`. */
  function Ended(es: seq<Event>): set<nat> {
    set e | e in es && (e.ChildExit? || e.ChildError?) :: e.child
  }

  /** Every child ever spawned is the current one, was killed, or has ended. */
  predicate NoOrphan(s: State, ended: set<nat>) {
    && (forall c :: 0 <= c < s.spawned ==> s.current == Child(c) || c in s.killed || c in ended)
    && (s.current.Child? ==> s.current.id !in ended)
    && (forall c :: c in ended ==> c < s.spawned)
  }

  lemma KillLeavesNoOrphan(s: State, t: State, ended: set<nat>)
    requires NoOrphan(s, ended)
    requires t.spawned == s.spawned && t.killed == Kill(s).killed && t.current in {s.current, NoChild}
    requires t.current.Child? || s.current.Child? || t.current == s.current
    ensures NoOrphan(t, ended)
  {
    assert s.current.Child? ==> s.current.id in t.killed;
  }

  lemma StartLeavesNoOrphan(s: State, ended: set<nat>)
    requires NoOrphan(s, ended)
    ensures NoOrphan(Started(s), ended)
  {
  }

  lemma EndLeavesNoOrphan(s: State, t: State, c: nat, ended: set<nat>)
    requires NoOrphan(s, ended) && c < s.spawned
    requires t.spawned == s.spawned && t.killed == s.killed
    requires t.current == if s.current == Child(c) then NoChild else s.current
    ensures NoOrphan(t, ended + {c})
  {
  }

  lemma StepLeavesNoOrphan(s: State, e: Event, ended: set<nat>)
    requires NewestIsCurrent(s) && NoOrphan(s, ended) && Enabled(s, e)
    ensures NoOrphan(Next(s, e), ended + Ended([e]))
  {
    if e.ChildExit? || e.ChildError? {
      EndingLeavesNoOrphan(s, e, ended);
      assert Ended([e]) == {e.child};
    } else {
      if e.Ready? || e.TimerFires? || e.Activate? {
        StartingLeavesNoOrphan(s, e, ended);
      } else {
        OtherLeavesNoOrphan(s, e, ended);
      }
      assert ended + Ended([e]) == ended;
    }
  }

  lemma EndingLeavesNoOrphan(s: State, e: Event, ended: set<nat>)
    requires NoOrphan(s, ended) && Enabled(s, e) && (e.ChildExit? || e.ChildError?)
    ensures NoOrphan(Next(s, e), ended + {e.child})
  {
    EndLeavesNoOrphan(s, Next(s, e), e.child, ended);
  }

  lemma StartingLeavesNoOrphan(s: State, e: Event, ended: set<nat>)
    requires NoOrphan(s, ended) && (e.Ready? || e.TimerFires? || e.Activate?)
    ensures NoOrphan(Next(s, e), ended)
  {
    match e {
      case Ready => StartLeavesNoOrphan(s.(ready := true), ended);
      case TimerFires => StartLeavesNoOrphan(s.(restartTimer := false, timerArmed := false), ended);
      case Activate => StartLeavesNoOrphan(s.(suspended := false, ready := true), ended);
    }
  }

  lemma OtherLeavesNoOrphan(s: State, e: Event, ended: set<nat>)
    requires NoOrphan(s, ended)
    requires !(e.ChildExit? || e.ChildError? || e.Ready? || e.TimerFires? || e.Activate?)
    ensures NoOrphan(Next(s, e), ended)
  {
    match e {
      case Retry => RestartLeavesNoOrphan(s, ended);
      case ChooseWorkspace => RestartLeavesNoOrphan(s, ended);
      case WindowAllClosed(_) => KillLeavesNoOrphan(s, Next(s, e), ended);
      case BeforeQuit => KillLeavesNoOrphan(s, Next(s, e), ended);
      case Line(_) =>
      case ChildSpawned(_) =>
    }
  }

  lemma RestartLeavesNoOrphan(s: State, ended: set<nat>)
    requires NoOrphan(s, ended)
    ensures NoOrphan(Restarted(s), ended)
  {
    var t := Cleared(s);
    KillLeavesNoOrphan(s, t, ended);
    StartLeavesNoOrphan(t, ended);
  }

  lemma {:induction false} RunLeavesNoOrphan(s: State, es: seq<Event>, ended: set<nat>)
    requires Inv(s) && NoOrphan(s, ended) && Legal(s, es)
    ensures NoOrphan(Run(s, es), ended + Ended(es))
    decreases |es|
  {
    if es == [] {
      assert ended + Ended(es) == ended;
    } else {
      StepLeavesNoOrphan(s, es[0], ended);
      NextKeepsInv(s, es[0]);
      RunLeavesNoOrphan(Next(s, es[0]), es[1..], ended + Ended([es[0]]));
      assert es == [es[0]] + es[1..];
      assert ended + Ended([es[0]]) + Ended(es[1..]) == ended + Ended(es);
    }
  }

  /** Whole runs from program start: the invariant holds, and at most one child is alive, the current one. */
  lemma EveryRunIsSafe(es: seq<Event>)
    requires Legal(INITIAL, es)
    ensures Inv(Run(INITIAL, es)) && NoOrphan(Run(INITIAL, es), Ended(es))
    ensures var s := Run(INITIAL, es);
            forall c :: 0 <= c < s.spawned && c !in s.killed && c !in Ended(es) ==> s.current == Child(c)
  {
    RunKeepsInv(INITIAL, es);
    RunLeavesNoOrphan(INITIAL, es, {});
    assert {} + Ended(es) == Ended(es);
  }

  // ---------------------------------------------------------------- stale children

  predicate Stale(s: State, e: Event) {
    match e
    case ChildSpawned(c) => s.current != Child(c)
    case ChildError(c) => s.current != Child(c)
    case ChildExit(c) => s.current != Child(c)
    case _ => false
  }

  /** The run with every lifecycle event of a child that is not current at that moment left out. */
  function DropStale(s: State, es: seq<Event>): seq<Event>
    decreases |es|
  {
    if es == [] then []
    else if Stale(s, es[0]) then DropStale(Next(s, es[0]), es[1..])
    else [es[0]] + DropStale(Next(s, es[0]), es[1..])
  }

  /** Late events of replaced children never influence a run: leaving them all out ends in the same state. */
  lemma {:induction false} StaleEventsNeverMatter(s: State, es: seq<Event>)
    ensures Run(s, es) == Run(s, DropStale(s, es))
    decreases |es|
  {
    if es != [] {
      var rest := DropStale(Next(s, es[0]), es[1..]);
      StaleEventsNeverMatter(Next(s, es[0]), es[1..]);
      if !Stale(s, es[0]) {
        assert DropStale(s, es)[1..] == rest;
      }
    }
  }

  // ---------------------------------------------------------------- quitting, giving up, recovering

  function Arms(marks: seq<Mark>): nat {
    if marks == [] then 0 else Arms(marks[..|marks| - 1]) + if marks[|marks| - 1].Arm? then 1 else 0
  }

  lemma ArmsOfSnoc(marks: seq<Mark>, m: Mark)
    ensures Arms(marks + [m]) == Arms(marks) + if m.Arm? then 1 else 0
  {
    assert (marks + [m])[..|marks|] == marks;
  }

  lemma QuittingStep(s: State, e: Event)
    requires s.quitting
    ensures Next(s, e).quitting && Next(s, e).spawned == s.spawned
    ensures Next(s, e).marks == s.marks || Next(s, e).marks == s.marks + [Reset]
  {
    match e {
      case ChildExit(c) =>
      case Retry =>
      case _ =>
    }
  }

  /** Once quitting, no run spawns a child or arms a restart again. */
  lemma {:induction false} NothingStartsWhileQuitting(s: State, es: seq<Event>)
    requires s.quitting
    ensures Run(s, es).quitting && Run(s, es).spawned == s.spawned
    ensures Arms(Run(s, es).marks) == Arms(s.marks)
    decreases |es|
  {
    if es != [] {
      ArmsOfSnoc(s.marks, Reset);
      QuittingStep(s, es[0]);
      NothingStartsWhileQuitting(Next(s, es[0]), es[1..]);
    }
  }

  /** While the app is quitting or has no window, the child it still has was told to end. */
  predicate StoppingKills(s: State) {
    (s.quitting || s.suspended) && s.current.Child? ==> s.current.id in s.killed
  }

  lemma StepKillsWhenStopping(s: State, e: Event)
    requires StoppingKills(s)
    ensures StoppingKills(Next(s, e))
  {
    match e {
      case Retry =>
      case ChooseWorkspace =>
      case _ =>
    }
  }

  lemma {:induction false} RunKillsWhenStopping(s: State, es: seq<Event>)
    requires StoppingKills(s)
    ensures StoppingKills(Run(s, es))
    decreases |es|
  {
    if es != [] {
      StepKillsWhenStopping(s, es[0]);
      RunKillsWhenStopping(Next(s, es[0]), es[1..]);
    }
  }

  /** In every run from program start, once the app is quitting or its windows are closed, every child it ever spawned
      was killed or has ended. */
  lemma NoChildOutlivesTheApp(es: seq<Event>)
    requires Legal(INITIAL, es) && (Run(INITIAL, es).quitting || Run(INITIAL, es).suspended)
    ensures var s := Run(INITIAL, es);
            forall c :: 0 <= c < s.spawned ==> c in s.killed || c in Ended(es)
  {
    RunKillsWhenStopping(INITIAL, es);
    EveryRunIsSafe(es);
  }

  lemma {:induction false} QuittingStaysDisarmed(s: State, es: seq<Event>)
    requires s.quitting && !s.timerArmed
    ensures Run(s, es).quitting && !Run(s, es).timerArmed
    decreases |es|
  {
    if es != [] {
      QuittingStep(s, es[0]);
      QuittingStaysDisarmed(Next(s, es[0]), es[1..]);
    }
  }

  /** Quitting is final: whatever happens afterwards, nothing is spawned, no timer is left to fire, and every child was
      killed or has ended. */
  lemma QuitIsFinal(es: seq<Event>, more: seq<Event>)
    requires Legal(INITIAL, es) && Legal(Next(Run(INITIAL, es), BeforeQuit), more)
    ensures var s, t := Run(INITIAL, es), Run(Next(Run(INITIAL, es), BeforeQuit), more);
            && t.quitting && !t.timerArmed && t.spawned == s.spawned && Arms(t.marks) == Arms(s.marks)
            && forall c :: 0 <= c < t.spawned ==> c in t.killed || c in Ended(es) + Ended(more)
  {
    var s := Run(INITIAL, es);
    var quit := Next(s, BeforeQuit);
    EveryRunIsSafe(es);
    NothingStartsWhileQuitting(quit, more);
    QuittingStaysDisarmed(quit, more);
    StoppedLeavesNoOrphan(s, BeforeQuit, more, Ended(es));
  }

  lemma StoppedLeavesNoOrphan(s: State, stop: Event, more: seq<Event>, ended: set<nat>)
    requires Inv(s) && NoOrphan(s, ended) && (stop.BeforeQuit? || stop.WindowAllClosed?)
    requires Legal(Next(s, stop), more)
    requires Run(Next(s, stop), more).quitting || Run(Next(s, stop), more).suspended
    ensures var t := Run(Next(s, stop), more);
            forall c :: 0 <= c < t.spawned ==> c in t.killed || c in ended + Ended(more)
  {
    var t := Next(s, stop);
    NextKeepsInv(s, stop);
    StepLeavesNoOrphan(s, stop, ended);
    assert ended + Ended([stop]) == ended;
    RunLeavesNoOrphan(t, more, ended);
    assert StoppingKills(t);
    RunKillsWhenStopping(t, more);
  }

  lemma SuspendedStep(s: State, e: Event)
    requires s.suspended && !e.Activate?
    ensures Next(s, e).suspended && Next(s, e).spawned == s.spawned
    ensures Next(s, e).marks == s.marks || Next(s, e).marks == s.marks + [Reset]
  {
    match e {
      case ChildExit(c) =>
      case Retry =>
      case _ =>
    }
  }

  lemma {:induction false} NothingStartsWhileSuspended(s: State, es: seq<Event>)
    requires s.suspended && forall e :: e in es ==> !e.Activate?
    ensures Run(s, es).suspended && Run(s, es).spawned == s.spawned
    ensures Arms(Run(s, es).marks) == Arms(s.marks)
    decreases |es|
  {
    if es != [] {
      assert es[0] in es;
      ArmsOfSnoc(s.marks, Reset);
      SuspendedStep(s, es[0]);
      NothingStartsWhileSuspended(Next(s, es[0]), es[1..]);
    }
  }

  /** After the last window is closed nothing is spawned or armed, for good elsewhere than on macOS and there until the
      app is activated again; and every child was killed or has ended. */
  lemma ClosingStopsTheRuntime(es: seq<Event>, darwin: bool, more: seq<Event>)
    requires Legal(INITIAL, es) && Legal(Next(Run(INITIAL, es), WindowAllClosed(darwin)), more)
    requires darwin ==> forall e :: e in more ==> !e.Activate?
    ensures var s, t := Run(INITIAL, es), Run(Next(Run(INITIAL, es), WindowAllClosed(darwin)), more);
            && t.spawned == s.spawned && Arms(t.marks) == Arms(s.marks)
            && forall c :: 0 <= c < t.spawned ==> c in t.killed || c in Ended(es) + Ended(more)
  {
    var s := Run(INITIAL, es);
    var closed := Next(s, WindowAllClosed(darwin));
    EveryRunIsSafe(es);
    if darwin {
      NothingStartsWhileSuspended(closed, more);
    } else {
      NothingStartsWhileQuitting(closed, more);
    }
    StoppedLeavesNoOrphan(s, WindowAllClosed(darwin), more, Ended(es));
  }

  predicate OfTheChildren(e: Event) {
    e.ChildSpawned? || e.ChildError? || e.ChildExit? || e.TimerFires?
  }

  function RestartsLeft(s: State): int {
    3 - s.attempts + if s.timerArmed then 1 else 0
  }

  /** A restart is armed exactly when the current child exits while the app is in use, no restart is on its way and
      fewer than three were made; it comes after 1, 2 or 4 seconds, and the status announces just that. Giving up is
      never announced with a restart on its way. */
  lemma RestartsExactly(s: State, e: Event)
    requires Inv(s) && Enabled(s, e)
    ensures Arms(Next(s, e).marks) > Arms(s.marks) <==>
            && e.ChildExit? && s.current == Child(e.child) && !s.quitting && !s.suspended
            && !s.restartTimer && s.attempts < 3
    ensures Arms(Next(s, e).marks) > Arms(s.marks) ==>
              var seconds := [1, 2, 4][s.attempts];
              && Next(s, e).marks == s.marks + [Arm(1000 * seconds)] && Next(s, e).timerArmed
              && Next(s, e).status == Status(false, ReconnectingIn(seconds))
    ensures Next(s, e).status.message == GaveUp && s.status.message != GaveUp ==> !Next(s, e).restartTimer
  {
    if e.ChildExit? && s.current == Child(e.child) {
      ArmedByExit(s, e.child);
    } else {
      OthersArmNothing(s, e);
      ArmsOfSnoc(s.marks, Reset);
    }
  }

  lemma ArmedByExit(s: State, c: nat)
    requires s.current == Child(c)
    ensures var t := Next(s, ChildExit(c));
            if s.quitting || s.suspended || s.restartTimer || s.attempts >= 3 then
              t.marks == s.marks && (t.status.message == GaveUp ==> !t.restartTimer)
            else
              var delay := 1000 * Pow2(s.attempts);
              && t.marks == s.marks + [Arm(delay)] && Arms(t.marks) == Arms(s.marks) + 1 && t.timerArmed
              && t.status == Status(false, ReconnectingIn((delay + 999) / 1000))
    ensures Pow2(0) == 1 && Pow2(1) == 2 && Pow2(2) == 4
  {
    ArmsOfSnoc(s.marks, Arm(1000 * Pow2(s.attempts)));
  }

  lemma OthersArmNothing(s: State, e: Event)
    requires !(e.ChildExit? && s.current == Child(e.child))
    ensures Next(s, e).marks == s.marks || Next(s, e).marks == s.marks + [Reset]
    ensures Next(s, e).status.message == GaveUp ==> s.status.message == GaveUp
  {
    match e {
      case Retry =>
      case ChooseWorkspace =>
      case _ =>
    }
  }

  /** "Connected" is shown after a step exactly if a line was read, the current child reported that it runs, or it was
      shown before and the step neither ended the current child nor started one. A child just started shows "starting".
      */
  lemma ConnectedExactly(s: State, e: Event)
    requires Enabled(s, e)
    ensures Next(s, e).status.connected <==>
            || e.Line?
            || (e.ChildSpawned? && s.current == Child(e.child))
            || (s.status.connected && Next(s, e).spawned == s.spawned
                && !((e.ChildExit? || e.ChildError?) && s.current == Child(e.child)))
    ensures Next(s, e).spawned > s.spawned ==>
              Next(s, e).status == Status(false, Starting) && Next(s, e).current == Child(s.spawned)
  {
    match e {
      case ChildExit(c) =>
      case Retry =>
      case _ =>
    }
  }

  /** Left to itself the supervisor spawns only boundedly often: each further child uses up a restart,
      and three are all there are without a message, a retry or a new workspace in between. */
  lemma {:induction false} CrashLoopIsBounded(s: State, es: seq<Event>)
    requires Inv(s) && Legal(s, es) && forall e :: e in es ==> OfTheChildren(e)
    ensures Run(s, es).spawned + RestartsLeft(Run(s, es)) <= s.spawned + RestartsLeft(s)
    ensures 0 <= RestartsLeft(Run(s, es)) && RestartsLeft(s) <= 4
    decreases |es|
  {
    if es != [] {
      assert es[0] in es;
      NextKeepsInv(s, es[0]);
      assert Next(s, es[0]).spawned + RestartsLeft(Next(s, es[0])) <= s.spawned + RestartsLeft(s);
      CrashLoopIsBounded(Next(s, es[0]), es[1..]);
    }
  }

  /** The supervisor becomes idle in exactly two ways, both with no restart armed: the current child fails to start, or
      it exits with all three restarts used up. It then shows which of the two it was. */
  lemma BecomesIdleExactly(s: State, e: Event)
    requires Inv(s) && Enabled(s, e) && !Idle(s)
    ensures Idle(Next(s, e)) <==>
            && Active(s) && s.current.Child? && !s.timerArmed
            && (e == ChildError(s.current.id) || (e == ChildExit(s.current.id) && s.attempts == 3))
    ensures Idle(Next(s, e)) ==> Next(s, e).status == Status(false, if e.ChildError? then FailedToStart else GaveUp)
  {
    match e {
      case ChildExit(c) => if s.current == Child(c) { ExitKeepsInv(s, c); }
      case _ =>
    }
  }

  /** The events that start a child where there is none. */
  predicate Revives(e: Event) {
    e.Ready? || e.Activate? || e.Retry? || e.ChooseWorkspace?
  }

  predicate Silent(es: seq<Event>) {
    forall e :: e in es ==> !e.Line?
  }

  lemma IdleStep(s: State, e: Event)
    requires s.current.NoChild? && !s.timerArmed && Enabled(s, e) && !Revives(e)
    ensures var t := Next(s, e);
            && t.current.NoChild? && !t.timerArmed && t.spawned == s.spawned
            && t.marks == (if e.Line? then s.marks + [Reset] else s.marks)
            && t.status == (if e.Line? && !s.status.connected then Status(true, NoMessage) else s.status)
  {
  }

  /** Once idle, only a retry, a new workspace, an activation or the app's start ever starts a child again; until then
      nothing is spawned or armed, and the message stays until some line is read and turns it into "connected". */
  lemma {:induction false} IdleUntilRevived(s: State, es: seq<Event>)
    requires s.current.NoChild? && !s.timerArmed && Legal(s, es) && forall e :: e in es ==> !Revives(e)
    ensures var t := Run(s, es);
            && t.current.NoChild? && !t.timerArmed && t.spawned == s.spawned && Arms(t.marks) == Arms(s.marks)
            && t.status == if Silent(es) || s.status.connected then s.status else Status(true, NoMessage)
    decreases |es|
  {
    if es != [] {
      assert es[0] in es && es == [es[0]] + es[1..];
      ArmsOfSnoc(s.marks, Reset);
      IdleStep(s, es[0]);
      IdleUntilRevived(Next(s, es[0]), es[1..]);
    }
  }

  lemma RevivedAtOnce(s: State, e: Event)
    requires Inv(s) && Idle(s) && Revives(e)
    ensures Next(s, e).current == Child(s.spawned)
  {
  }

  /** A child that fails to start is restarted all the same if the timer of an earlier exit is still armed: activation
      starts a child without clearing that timer. */
  lemma FailedStartIsRetriedByAnOlderTimer()
    ensures var es := [Ready, ChildSpawned(0), ChildExit(0), Activate, ChildError(1)];
            && Legal(INITIAL, es)
            && Run(INITIAL, es).status == Status(false, FailedToStart) && Run(INITIAL, es).current == NoChild
            && Enabled(Run(INITIAL, es), TimerFires)
            && Next(Run(INITIAL, es), TimerFires).current == Child(2)
  {
    var s1 := Next(INITIAL, Ready);
    var s3 := Next(Next(s1, ChildSpawned(0)), ChildExit(0));
    var s4 := Next(s3, Activate);
    RunOfFour(s1, ChildSpawned(0), ChildExit(0), Activate, ChildError(1));
    Unfolded(INITIAL, Ready, [ChildSpawned(0), ChildExit(0), Activate, ChildError(1)]);
    assert [Ready] + [ChildSpawned(0), ChildExit(0), Activate, ChildError(1)]
        == [Ready, ChildSpawned(0), ChildExit(0), Activate, ChildError(1)];
    assert s3.timerArmed && s4.current == Child(1) && s4.timerArmed;
  }

  lemma Unfolded(s: State, e: Event, rest: seq<Event>)
    ensures Run(s, [e] + rest) == Run(Next(s, e), rest)
    ensures Legal(s, [e] + rest) <==> Enabled(s, e) && Legal(Next(s, e), rest)
  {
    assert ([e] + rest)[1..] == rest;
  }

  lemma RunOfFour(s: State, a: Event, b: Event, c: Event, d: Event)
    requires Enabled(s, a) && Enabled(Next(s, a), b) && Enabled(Next(Next(s, a), b), c)
    requires Enabled(Next(Next(Next(s, a), b), c), d)
    ensures Legal(s, [a, b, c, d]) && Run(s, [a, b, c, d]) == Next(Next(Next(Next(s, a), b), c), d)
  {
    var s1 := Next(s, a);
    var s2 := Next(s1, b);
    var s3 := Next(s2, c);
    assert Run(Next(s3, d), []) == Next(s3, d);
    Unfolded(s3, d, []);
    Unfolded(s2, c, [d]);
    Unfolded(s1, b, [c, d]);
    Unfolded(s, a, [b, c, d]);
    assert [d] + [] == [d] && [c] + [d] == [c, d] && [b] + [c, d] == [b, c, d] && [a] + [b, c, d] == [a, b, c, d];
  }

  /** A crash of the current child, the restart, the next child running, then whatever follows. */
  function CrashThen(c: nat, rest: seq<Event>): seq<Event> {
    [ChildExit(c), TimerFires, ChildSpawned(c + 1)] + rest
  }

  /** Child `c` and `restarts` more crash one after the other. */
  function Crashes(c: nat, restarts: nat): seq<Event>
    decreases restarts
  {
    if restarts == 0 then [ChildExit(c)] else CrashThen(c, Crashes(c + 1, restarts - 1))
  }

  /** The delays still to be armed after so many attempts. */
  function DelaysLeft(attempts: nat): seq<Mark>
    decreases 3 - attempts
  {
    if attempts >= 3 then [] else [Arm(1000 * Pow2(attempts))] + DelaysLeft(attempts + 1)
  }

  lemma CrashAndRestart(s: State, rest: seq<Event>) returns (t: State)
    requires Inv(s) && Active(s) && s.current.Child? && !s.restartTimer && s.attempts < 3
    ensures Inv(t) && Active(t) && t.current == Child(s.spawned) && t.spawned == s.spawned + 1 && !t.restartTimer
    ensures t.attempts == s.attempts + 1 && t.marks == s.marks + [Arm(1000 * Pow2(s.attempts))]
    ensures Run(s, CrashThen(s.current.id, rest)) == Run(t, rest)
    ensures Legal(t, rest) ==> Legal(s, CrashThen(s.current.id, rest))
  {
    var c := s.current.id;
    var s1 := Next(s, ChildExit(c));
    var s2 := Next(s1, TimerFires);
    NextKeepsInv(s, ChildExit(c));
    NextKeepsInv(s1, TimerFires);
    NextKeepsInv(s2, ChildSpawned(c + 1));
    t := Next(s2, ChildSpawned(c + 1));
    Unfolded(s, ChildExit(c), [TimerFires, ChildSpawned(c + 1)] + rest);
    Unfolded(s1, TimerFires, [ChildSpawned(c + 1)] + rest);
    Unfolded(s2, ChildSpawned(c + 1), rest);
    assert [ChildExit(c)] + ([TimerFires, ChildSpawned(c + 1)] + rest) == CrashThen(c, rest);
    assert [TimerFires] + ([ChildSpawned(c + 1)] + rest) == [TimerFires, ChildSpawned(c + 1)] + rest;
  }

  lemma LastCrash(s: State)
    requires Inv(s) && Active(s) && s.current.Child? && !s.restartTimer && s.attempts == 3
    ensures Legal(s, [ChildExit(s.current.id)])
    ensures var t := Run(s, [ChildExit(s.current.id)]);
            && t.status == Status(false, GaveUp) && t.current == NoChild && !t.timerArmed
            && t.spawned == s.spawned && t.marks == s.marks
  {
    assert [ChildExit(s.current.id)][1..] == [];
  }

  /** Crash after crash the restarts left are used up, and then the supervisor gives up. */
  lemma {:induction false} CrashingGivesUp(s: State)
    requires Inv(s) && Active(s) && s.current.Child? && !s.restartTimer
    ensures var es := Crashes(s.current.id, 3 - s.attempts);
            && Legal(s, es)
            && Run(s, es).status == Status(false, GaveUp) && Run(s, es).current == NoChild && !Run(s, es).timerArmed
            && Run(s, es).spawned == s.spawned + 3 - s.attempts && Run(s, es).marks == s.marks + DelaysLeft(s.attempts)
    decreases 3 - s.attempts
  {
    if s.attempts == 3 {
      LastCrash(s);
    } else {
      var rest := Crashes(s.current.id + 1, 2 - s.attempts);
      var t := CrashAndRestart(s, rest);
      CrashingGivesUp(t);
      assert t.marks + DelaysLeft(t.attempts) == s.marks + DelaysLeft(s.attempts);
    }
  }

  /** A child that keeps crashing is restarted after 1, 2 and 4 seconds, and then the supervisor gives up. */
  lemma FourCrashesGiveUp(s: State)
    requires Inv(s) && Active(s) && s.current.Child? && !s.restartTimer && s.attempts == 0
    ensures var es := Crashes(s.current.id, 3);
            && Legal(s, es)
            && Run(s, es).status == Status(false, GaveUp) && Run(s, es).current == NoChild && !Run(s, es).timerArmed
            && Run(s, es).spawned == s.spawned + 3 && Run(s, es).marks == s.marks + [Arm(1000), Arm(2000), Arm(4000)]
  {
    CrashingGivesUp(s);
    AllDelays();
  }

  lemma AllDelays()
    ensures DelaysLeft(0) == [Arm(1000), Arm(2000), Arm(4000)]
  {
    assert Pow2(0) == 1 && Pow2(1) == 2 && Pow2(2) == 4;
    assert DelaysLeft(2) == [Arm(4000)] && DelaysLeft(1) == [Arm(2000), Arm(4000)];
  }

  /** Asking for a retry while active always leaves a child, even though it is ignored while "starting". */
  lemma RetryRecovers(s: State)
    requires Inv(s) && Active(s)
    ensures Next(s, Retry).current.Child?
    ensures s.current.Child? && s.status.message != Starting ==> s.current.id in Next(s, Retry).killed
    ensures s.status.message == Starting ==> Next(s, Retry) == s
  {
  }

  /** A line from a running child gives it three more restarts, the first again after a second. */
  lemma LineRenewsTheRestarts(s: State)
    requires Inv(s) && Active(s) && s.current.Child? && !s.restartTimer
    ensures var es := [Line(s.current.id)] + Crashes(s.current.id, 3);
            && Legal(s, es)
            && Run(s, es).status == Status(false, GaveUp) && Run(s, es).current == NoChild
            && Run(s, es).spawned == s.spawned + 3
            && Run(s, es).marks == s.marks + [Reset] + [Arm(1000), Arm(2000), Arm(4000)]
  {
    var line := Line(s.current.id);
    NextKeepsInv(s, line);
    FourCrashesGiveUp(Next(s, line));
    Unfolded(s, line, Crashes(s.current.id, 3));
  }

  // ---------------------------------------------------------------- when the reported status is wrong

  /** "Connected" is only shown while there is a child. */
  predicate Honest(s: State) {
    s.status.connected ==> s.current.Child?
  }

  /** The status becomes wrong in exactly two ways: a line arrives while there is no child, because output of a child
      that is gone is not filtered; or a connected child is dropped while suspended or quitting without a new status. */
  lemma HonestUntil(s: State, e: Event)
    requires Inv(s) && Enabled(s, e) && Honest(s)
    ensures Honest(Next(s, e)) <==>
            && !(e.Line? && s.current.NoChild?)
            && !((e.Retry? || e.ChooseWorkspace?) && s.status.connected && (s.quitting || s.suspended)
                 && !(e.Retry? && s.status.message == Starting))
  {
  }

  /** Such a run from program start: the child exits, and the rest of its output is read afterwards. */
  lemma LateOutputShowsConnected()
    ensures var es := [Ready, ChildSpawned(0), ChildExit(0), Line(0)];
            && Legal(INITIAL, es)
            && Run(INITIAL, es).status.connected && Run(INITIAL, es).current == NoChild
            && Run(INITIAL, es).attempts == 0
  {
    RunOfFour(INITIAL, Ready, ChildSpawned(0), ChildExit(0), Line(0));
  }

  lemma {:induction false} ChildrenKeepItActive(s: State, es: seq<Event>)
    requires forall e :: e in es ==> OfTheChildren(e)
    ensures Active(Run(s, es)) <==> Active(s)
    decreases |es|
  {
    if es != [] {
      assert es[0] in es;
      ChildrenKeepItActive(Next(s, es[0]), es[1..]);
    }
  }

  lemma {:induction false} RunSnoc(s: State, es: seq<Event>, e: Event)
    requires Legal(s, es) && Enabled(Run(s, es), e)
    ensures Legal(s, es + [e]) && Run(s, es + [e]) == Next(Run(s, es), e)
    decreases |es|
  {
    if es == [] {
      assert [] + [e] == [e] && [e] == [e] + [];
      Unfolded(s, e, []);
    } else {
      RunSnoc(Next(s, es[0]), es[1..], e);
      Unfolded(s, es[0], es[1..] + [e]);
      assert es + [e] == [es[0]] + (es[1..] + [e]);
    }
  }

  /** However the children come and go, once the supervisor has given up on them one more line of any of them leaves it
      idle and shown as connected. */
  lemma LineAfterGivingUp(s: State, es: seq<Event>, c: nat)
    requires Active(s) && Legal(s, es) && forall e :: e in es ==> OfTheChildren(e)
    requires var t := Run(s, es);
             t.status == Status(false, GaveUp) && t.current == NoChild && !t.timerArmed && c < t.spawned
    ensures Legal(s, es + [Line(c)])
    ensures Idle(Run(s, es + [Line(c)])) && Run(s, es + [Line(c)]).status == Status(true, NoMessage)
  {
    ChildrenKeepItActive(s, es);
    RunSnoc(s, es, Line(c));
  }

  lemma {:induction false} OnlyOfTheChildren(c: nat, restarts: nat)
    ensures forall e :: e in Crashes(c, restarts) ==> OfTheChildren(e)
    decreases restarts
  {
    if restarts > 0 {
      OnlyOfTheChildren(c + 1, restarts - 1);
    }
  }

  /** Four children crash, and the rest of the last one's output is read afterwards. */
  lemma CrashesThenLine(s: State)
    requires Inv(s) && Active(s) && s.current.Child? && !s.restartTimer && s.attempts == 0
    ensures var es := Crashes(s.current.id, 3) + [Line(s.current.id + 3)];
            Legal(s, es) && Idle(Run(s, es)) && Run(s, es).status == Status(true, NoMessage)
  {
    FourCrashesGiveUp(s);
    OnlyOfTheChildren(s.current.id, 3);
    LineAfterGivingUp(s, Crashes(s.current.id, 3), s.current.id + 3);
  }

  /** The same from program start. */
  lemma IdleAndConnected()
    ensures var es := [Ready, ChildSpawned(0)] + (Crashes(0, 3) + [Line(3)]);
            && Legal(INITIAL, es)
            && Idle(Run(INITIAL, es)) && Run(INITIAL, es).status == Status(true, NoMessage)
  {
    var s1 := Next(INITIAL, Ready);
    var s := Next(s1, ChildSpawned(0));
    NextKeepsInv(INITIAL, Ready);
    NextKeepsInv(s1, ChildSpawned(0));
    CrashesThenLine(s);
    TwoMore(INITIAL, Ready, ChildSpawned(0), Crashes(0, 3) + [Line(3)]);
  }

  lemma TwoMore(s: State, a: Event, b: Event, rest: seq<Event>)
    requires Enabled(s, a) && Enabled(Next(s, a), b) && Legal(Next(Next(s, a), b), rest)
    ensures Legal(s, [a, b] + rest) && Run(s, [a, b] + rest) == Run(Next(Next(s, a), b), rest)
  {
    Unfolded(Next(s, a), b, rest);
    Unfolded(s, a, [b] + rest);
    assert [a] + ([b] + rest) == [a, b] + rest;
  }

  // ---------------------------------------------------------------- the program

  class Main {
    var sidecar: Current
    var restartAttempts: nat
    var restartTimer: bool
    var timerArmed: bool
    var isQuitting: bool
    var runtimeSuspended: bool
    var runtimeStatus: Status
    ghost var ready: bool
    var spawned: nat
    ghost var killed: set<nat>
    ghost var marks: seq<Mark>

    ghost function Now(): State
      reads this
    {
      State(sidecar, restartAttempts, restartTimer, timerArmed, isQuitting, runtimeSuspended, runtimeStatus,
                       ready, spawned, killed, marks)
    }

    constructor ()
      ensures Now() == INITIAL && Inv(Now())
    {
      sidecar, restartAttempts, restartTimer, timerArmed := NoChild, 0, false, false;
      isQuitting, runtimeSuspended, runtimeStatus := false, false, Status(false, Starting);
      ready, spawned, killed, marks := false, 0, {}, [];
    }

    method StartSidecar()
      modifies this
      ensures Now() == Started(old(Now()))
    {
      if isQuitting || runtimeSuspended || sidecar.Child? {
        return;
      }
      runtimeStatus := Status(false, Starting);
      sidecar := Child(spawned);
      spawned := spawned + 1;
    }

    method ScheduleSidecarRestart()
      modifies this
      ensures Now() == RestartScheduled(old(Now()))
    {
      if isQuitting || runtimeSuspended || restartTimer {
        return;
      }
      if restartAttempts >= 3 {
        runtimeStatus := Status(false, GaveUp);
        return;
      }
      var delay := 1000 * Pow2(restartAttempts);
      restartAttempts := restartAttempts + 1;
      runtimeStatus := Status(false, ReconnectingIn((delay + 999) / 1000));
      restartTimer, timerArmed := true, true;
      marks := marks + [Arm(delay)];
    }

    method RestartSidecar()
      modifies this
      ensures Now() == Restarted(old(Now()))
    {
      restartAttempts := 0;
      marks := marks + [Reset];
      restartTimer, timerArmed := false, false;
      var previous := sidecar;
      sidecar := NoChild;
      if previous.Child? {
        killed := killed + {previous.id};
      }
      StartSidecar();
    }

    /** `wireSidecarChild`'s listeners re-check the current child when the event arrives. */
    method OnChildSpawned(child: nat)
      requires Inv(Now()) && child < spawned
      modifies this
      ensures Inv(Now()) && Now() == Next(old(Now()), ChildSpawned(child))
    {
      NextKeepsInv(Now(), ChildSpawned(child));
      if sidecar == Child(child) {
        runtimeStatus := Status(true, NoMessage);
      }
    }

    method OnChildError(child: nat)
      requires Inv(Now()) && child < spawned
      modifies this
      ensures Inv(Now()) && Now() == Next(old(Now()), ChildError(child))
    {
      NextKeepsInv(Now(), ChildError(child));
      if sidecar == Child(child) {
        sidecar := NoChild;
        runtimeStatus := Status(false, FailedToStart);
      }
    }

    method OnChildExit(child: nat)
      requires Inv(Now()) && child < spawned
      modifies this
      ensures Inv(Now()) && Now() == Next(old(Now()), ChildExit(child))
    {
      NextKeepsInv(Now(), ChildExit(child));
      if sidecar == Child(child) {
        sidecar := NoChild;
        runtimeStatus := Status(false, Exited);
        ScheduleSidecarRestart();
      }
    }

    method HandleSidecarMessage(child: nat)
      requires Inv(Now()) && child < spawned
      modifies this
      ensures Inv(Now()) && Now() == Next(old(Now()), Line(child))
    {
      NextKeepsInv(Now(), Line(child));
      restartAttempts := 0;
      marks := marks + [Reset];
      if !runtimeStatus.connected {
        runtimeStatus := Status(true, NoMessage);
      }
    }

    method RestartTimerFires()
      requires Inv(Now()) && timerArmed
      modifies this
      ensures Inv(Now()) && Now() == Next(old(Now()), TimerFires)
    {
      NextKeepsInv(Now(), TimerFires);
      restartTimer, timerArmed := false, false;
      StartSidecar();
    }

    method RuntimeRetry()
      requires Inv(Now())
      modifies this
      ensures Inv(Now()) && Now() == Next(old(Now()), Retry)
    {
      NextKeepsInv(Now(), Retry);
      if runtimeStatus.message == Starting {
        return;
      }
      restartAttempts := 0;
      RestartSidecar();
    }

    method WindowAllClosed(darwin: bool)
      requires Inv(Now())
      modifies this
      ensures Inv(Now()) && Now() == Next(old(Now()), Event.WindowAllClosed(darwin))
    {
      NextKeepsInv(Now(), Event.WindowAllClosed(darwin));
      runtimeSuspended := true;
      if !darwin {
        isQuitting := true;
      }
      if sidecar.Child? {
        killed := killed + {sidecar.id};
      }
    }

    method Activate()
      requires Inv(Now())
      modifies this
      ensures Inv(Now()) && Now() == Next(old(Now()), Event.Activate)
    {
      NextKeepsInv(Now(), Event.Activate);
      runtimeSuspended := false;
      ready := true;
      StartSidecar();
    }

    method BeforeQuit()
      requires Inv(Now())
      modifies this
      ensures Inv(Now()) && Now() == Next(old(Now()), Event.BeforeQuit)
    {
      NextKeepsInv(Now(), Event.BeforeQuit);
      isQuitting := true;
      if restartTimer {
        timerArmed := false;
      }
      if sidecar.Child? {
        killed := killed + {sidecar.id};
      }
    }
  }
}

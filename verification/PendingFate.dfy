/** What ends a pending request of the desktop main process: its own timer, its answer, or the mass rejection when the
    current child exits or fails to start. Nothing else does, a restart included. */
module PendingFate {
  import opened RequestTable
  import opened SidecarProtocol
  import opened SidecarDelivery
  import Sup = Supervisor

  type SystemEvent = SidecarProtocol.Event

  /** This step ends the request of kind `k` with this id. */
  ghost predicate Ends(w: Wire, s: State, e: SystemEvent, k: Kind, id: Id)
    requires SidecarProtocol.Enabled(s, e)
  {
    match e
    case TimedOut(k', id') => k' == k && id' == id
    case MainReads(c, n) => HoldsAnswer(w, s.children[c].output.Arrivals(n), k, id)
    case Lifecycle(l) => Rejects(s, l) && Drained(k)
    case _ => false
  }

  // ---------------------------------------------------------------- one step

  lemma TimeoutEnds(s: State, k': Kind, id': Id, k: Kind, id: Id)
    requires id' in TableOf(s.tables, k').armed
    ensures IsPending(s.tables[k' := Next(TableOf(s.tables, k'), Timeout(id'))], k, id) <==>
            IsPending(s.tables, k, id) && !(k' == k && id' == id)
  {
    var t := TableOf(s.tables, k');
    WithoutIds(t.pending, id');
    OneTableChanges(s.tables, k', Next(t, Timeout(id')), id', k, id);
  }

  lemma LifecycleEnds(s: State, e: Sup.Event, k: Kind, id: Id)
    ensures IsPending(LifecycleStep(s, e).tables, k, id) <==>
            IsPending(s.tables, k, id) && !(Rejects(s, e) && Drained(k))
  {
  }

  lemma IssueEndsNothing(w: Wire, s: State, call: Call, r: Request, writable: bool, k: Kind, id: Id)
    requires SidecarProtocol.Enabled(s, SidecarProtocol.Event.Issue(call, r, writable)) && id in s.asked
    ensures IsPending(Issued(w, s, call, r, writable).tables, k, id) <==> IsPending(s.tables, k, id)
  {
    assert id != call.id;
  }

  lemma ReadingEnds(w: Wire, s: State, c: nat, n: nat, k: Kind, id: Id)
    requires SidecarProtocol.Enabled(s, MainReads(c, n))
    ensures var t := SidecarProtocol.Step(w, s, MainReads(c, n));
            && t.asked == s.asked
            && (IsPending(t.tables, k, id) <==>
                  IsPending(s.tables, k, id) && !HoldsAnswer(w, s.children[c].output.Arrivals(n), k, id))
  {
    var child := s.children[c];
    var s1 := s.(children := s.children[c := child.(output := child.output.Read(n))]);
    HandleAllSettles(w, s1, c, child.output.Arrivals(n), k, id);
    HandleAllChildren(w, s1, c, child.output.Arrivals(n));
  }

  /** What goes on at the sidecars' end touches no table. */
  lemma SidecarsEndNothing(w: Wire, s: State, e: SystemEvent)
    requires SidecarProtocol.Enabled(s, e)
    requires !e.Issue? && !e.MainReads? && !e.TimedOut? && !e.Lifecycle?
    ensures SidecarProtocol.Step(w, s, e).tables == s.tables && SidecarProtocol.Step(w, s, e).asked == s.asked
  {
  }

  /** A request asked before this step is pending after it exactly if it was before and the step does not end it. */
  lemma StepDecides(w: Wire, s: State, e: SystemEvent, k: Kind, id: Id)
    requires SidecarProtocol.Enabled(s, e) && id in s.asked
    ensures IsPending(SidecarProtocol.Step(w, s, e).tables, k, id) <==>
            IsPending(s.tables, k, id) && !Ends(w, s, e, k, id)
    ensures id in SidecarProtocol.Step(w, s, e).asked
  {
    if e.MainReads? {
      ReadingEnds(w, s, e.child, e.n, k, id);
    } else if e.Lifecycle? {
      LifecycleEnds(s, e.e, k, id);
    } else if e.TimedOut? {
      TimeoutEnds(s, e.kind, e.id, k, id);
    } else if e.Issue? {
      IssueEndsNothing(w, s, e.call, e.request, e.writable, k, id);
    } else {
      SidecarsEndNothing(w, s, e);
    }
  }

  // ---------------------------------------------------------------- runs

  /** No step of the run ends the request. */
  ghost predicate Survives(w: Wire, s: State, es: seq<SystemEvent>, k: Kind, id: Id)
    requires SidecarProtocol.Legal(w, s, es)
    decreases |es|
  {
    es != [] ==> !Ends(w, s, es[0], k, id) && Survives(w, SidecarProtocol.Step(w, s, es[0]), es[1..], k, id)
  }

  /** Over any run a pending request stays pending exactly as long as no step ends it, and what is over stays over. */
  lemma {:induction false} RunDecides(w: Wire, s: State, es: seq<SystemEvent>, k: Kind, id: Id)
    requires SidecarProtocol.Legal(w, s, es) && id in s.asked
    ensures IsPending(SidecarProtocol.Run(w, s, es).tables, k, id) <==>
            IsPending(s.tables, k, id) && Survives(w, s, es, k, id)
    decreases |es|
  {
    if es != [] {
      StepDecides(w, s, es[0], k, id);
      RunDecides(w, SidecarProtocol.Step(w, s, es[0]), es[1..], k, id);
    }
  }

  /** If a run is over for a request, some step of it ended the request while it was still pending. */
  lemma {:induction false} EndingStep(w: Wire, s: State, es: seq<SystemEvent>, k: Kind, id: Id) returns (i: nat)
    requires SidecarProtocol.Legal(w, s, es) && id in s.asked
    requires IsPending(s.tables, k, id) && !IsPending(SidecarProtocol.Run(w, s, es).tables, k, id)
    ensures i < |es| && SidecarProtocol.Legal(w, s, es[..i])
    ensures var u := SidecarProtocol.Run(w, s, es[..i]);
            SidecarProtocol.Enabled(u, es[i]) && IsPending(u.tables, k, id) && Ends(w, u, es[i], k, id)
    decreases |es|
  {
    StepDecides(w, s, es[0], k, id);
    if Ends(w, s, es[0], k, id) {
      i := 0;
      assert es[..0] == [];
    } else {
      var j := EndingStep(w, SidecarProtocol.Step(w, s, es[0]), es[1..], k, id);
      i := j + 1;
      assert es[..i][1..] == es[1..][..j];
    }
  }

  // ---------------------------------------------------------------- exits

  predicate IsEndOf(e: SystemEvent, c: nat) {
    e.Lifecycle? && (e.e == Sup.ChildExit(c) || e.e == Sup.ChildError(c))
  }

  /** The request's own timer fires, or its answer is read. */
  ghost predicate AnswerOrTimer(w: Wire, s: State, e: SystemEvent, k: Kind, id: Id) {
    && SidecarProtocol.Enabled(s, e)
    && (|| e == TimedOut(k, id)
        || (e.MainReads? && HoldsAnswer(w, s.children[e.child].output.Arrivals(e.n), k, id)))
  }

  /** When the current child exits or fails to start, exactly the requests of the drained types end. */
  lemma ExitEndsExactlyTheDrained(w: Wire, s: State, e: SystemEvent, c: nat, k: Kind, id: Id)
    requires SidecarProtocol.Enabled(s, e) && IsEndOf(e, c) && s.sup.current == Sup.Child(c) && id in s.asked
    ensures IsPending(SidecarProtocol.Step(w, s, e).tables, k, id) <==>
            IsPending(s.tables, k, id) && k in {SessionRename, SessionArchive, SessionBranch, SessionSearch}
    ensures k in s.tables ==>
              SidecarProtocol.Step(w, s, e).tables[k]
              == if k in {SessionRename, SessionArchive, SessionBranch, SessionSearch} then s.tables[k]
                 else Next(s.tables[k], RejectAll(STOPPED))
  {
    StepDecides(w, s, e, k, id);
  }

  /** The four session queues are emptied by no exit and no restart: over any run, such a request ends only by its own
      timer or by its answer, be it read from a child that is gone. */
  lemma UndrainedEndByAnswerOrTimer(w: Wire, s: State, es: seq<SystemEvent>, k: Kind, id: Id) returns (i: nat)
    requires SidecarProtocol.Legal(w, s, es) && id in s.asked
    requires k in {SessionRename, SessionArchive, SessionBranch, SessionSearch}
    requires IsPending(s.tables, k, id) && !IsPending(SidecarProtocol.Run(w, s, es).tables, k, id)
    ensures i < |es| && SidecarProtocol.Legal(w, s, es[..i])
    ensures AnswerOrTimer(w, SidecarProtocol.Run(w, s, es[..i]), es[i], k, id)
  {
    i := EndingStep(w, s, es, k, id);
  }

  /** Output of a child that has exited still settles such a request, when the answer is in it; the requests of the
      other types have been rejected by then. */
  lemma LateAnswersSettle(w: Wire, s: State, c: nat, n: nat, k: Kind, id: Id)
    requires SidecarProtocol.Enabled(s, Lifecycle(Sup.ChildExit(c))) && SidecarProtocol.Enabled(s, MainReads(c, n))
    requires s.sup.current == Sup.Child(c) && id in s.asked && IsPending(s.tables, k, id)
    requires HoldsAnswer(w, s.children[c].output.Arrivals(n), k, id)
    ensures var exited := SidecarProtocol.Step(w, s, Lifecycle(Sup.ChildExit(c)));
            && (IsPending(exited.tables, k, id) <==> !Drained(k))
            && SidecarProtocol.Enabled(exited, MainReads(c, n))
            && !IsPending(SidecarProtocol.Step(w, exited, MainReads(c, n)).tables, k, id)
  {
    var exited := SidecarProtocol.Step(w, s, Lifecycle(Sup.ChildExit(c)));
    ExitEndsExactlyTheDrained(w, s, Lifecycle(Sup.ChildExit(c)), c, k, id);
    assert exited.children[c] == s.children[c];
    StepDecides(w, exited, MainReads(c, n), k, id);
  }

  // ---------------------------------------------------------------- manual restarts

  /** Child `c` is gone for good: every current child there will be is newer. */
  predicate Replaced(s: Sup.State, c: nat) {
    c < s.spawned && (s.current.Child? ==> s.current.id > c)
  }

  lemma SupervisorMovesOn(s: Sup.State, e: Sup.Event, c: nat)
    requires Replaced(s, c)
    ensures Replaced(Sup.Next(s, e), c)
  {
  }

  lemma {:induction false} HandlingMovesOn(w: Wire, s: State, from: nat, lines: seq<string>, c: nat)
    requires Replaced(s.sup, c)
    ensures Replaced(HandleAll(w, s, from, lines).sup, c)
    decreases |lines|
  {
    if lines != [] {
      SupervisorMovesOn(s.sup, Sup.Line(from), c);
      HandlingMovesOn(w, Handle(w, s, from, lines[0]), from, lines[1..], c);
    }
  }

  lemma StepMovesOn(w: Wire, s: State, e: SystemEvent, c: nat)
    requires SidecarProtocol.Enabled(s, e) && Replaced(s.sup, c)
    ensures Replaced(SidecarProtocol.Step(w, s, e).sup, c)
  {
    match e {
      case Lifecycle(l) => SupervisorMovesOn(s.sup, l, c);
      case MainReads(d, n) =>
        var child := s.children[d];
        var s1 := s.(children := s.children[d := child.(output := child.output.Read(n))]);
        HandlingMovesOn(w, s1, d, child.output.Arrivals(n), c);
      case _ =>
    }
  }

  lemma {:induction false} ReplacedForGood(w: Wire, s: State, es: seq<SystemEvent>, c: nat)
    requires SidecarProtocol.Legal(w, s, es) && Replaced(s.sup, c)
    ensures Replaced(SidecarProtocol.Run(w, s, es).sup, c)
    decreases |es|
  {
    if es != [] {
      StepMovesOn(w, s, es[0], c);
      ReplacedForGood(w, SidecarProtocol.Step(w, s, es[0]), es[1..], c);
    }
  }

  /** A retry that is not ignored, or a change of workspace, replaces the current child and ends no request. */
  lemma RestartEndsNothing(w: Wire, s: State, e: SystemEvent, k: Kind, id: Id)
    requires Sup.NewestIsCurrent(s.sup) && SidecarProtocol.Enabled(s, e) && id in s.asked
    requires e == Lifecycle(Sup.ChooseWorkspace) || (e == Lifecycle(Sup.Retry) && s.sup.status.message != Sup.Starting)
    ensures SidecarProtocol.Step(w, s, e).tables == s.tables
    ensures IsPending(SidecarProtocol.Step(w, s, e).tables, k, id) <==> IsPending(s.tables, k, id)
    ensures s.sup.current.Child? ==> Replaced(SidecarProtocol.Step(w, s, e).sup, s.sup.current.id)
  {
    StepDecides(w, s, e, k, id);
  }

  /** A step that ends a request after child `c` is gone is no event of `c`. */
  lemma NewerChildEnds(w: Wire, s: State, e: SystemEvent, c: nat, k: Kind, id: Id)
    requires SidecarProtocol.Enabled(s, e) && Ends(w, s, e, k, id) && Replaced(s.sup, c)
    ensures AnswerOrTimer(w, s, e, k, id) || (exists d :: d > c && IsEndOf(e, d) && Drained(k))
  {
    if e.Lifecycle? {
      assert IsEndOf(e, e.e.child) && e.e.child > c;
    }
  }

  /** Nor does anything the killed child does later, its exit included: after the restart, over any run, a request ends
      only by its timer, by its answer, or by the end of a newer child. */
  lemma RequestsOutliveTheKilledChild(
      w: Wire, s: State, e: SystemEvent, t: State, es: seq<SystemEvent>, k: Kind, id: Id) returns (i: nat)
    requires Sup.NewestIsCurrent(s.sup) && SidecarProtocol.Enabled(s, e)
    requires id in s.asked && IsPending(s.tables, k, id) && s.sup.current.Child?
    requires e == Lifecycle(Sup.ChooseWorkspace) || (e == Lifecycle(Sup.Retry) && s.sup.status.message != Sup.Starting)
    requires t == SidecarProtocol.Step(w, s, e) && SidecarProtocol.Legal(w, t, es)
    requires !IsPending(SidecarProtocol.Run(w, t, es).tables, k, id)
    ensures i < |es| && SidecarProtocol.Legal(w, t, es[..i])
    ensures || AnswerOrTimer(w, SidecarProtocol.Run(w, t, es[..i]), es[i], k, id)
            || (exists d :: d > s.sup.current.id && IsEndOf(es[i], d) && Drained(k))
  {
    RestartEndsNothing(w, s, e, k, id);
    StepDecides(w, s, e, k, id);
    i := EndedAfterReplacement(w, t, es, s.sup.current.id, k, id);
  }

  lemma EndedAfterReplacement(w: Wire, t: State, es: seq<SystemEvent>, c: nat, k: Kind, id: Id) returns (i: nat)
    requires SidecarProtocol.Legal(w, t, es) && Replaced(t.sup, c)
    requires id in t.asked && IsPending(t.tables, k, id) && !IsPending(SidecarProtocol.Run(w, t, es).tables, k, id)
    ensures i < |es| && SidecarProtocol.Legal(w, t, es[..i])
    ensures || AnswerOrTimer(w, SidecarProtocol.Run(w, t, es[..i]), es[i], k, id)
            || (exists d :: d > c && IsEndOf(es[i], d) && Drained(k))
  {
    i := EndingStep(w, t, es, k, id);
    ReplacedForGood(w, t, es[..i], c);
    NewerChildEnds(w, SidecarProtocol.Run(w, t, es[..i]), es[i], c, k, id);
  }

  lemma Unfolded(w: Wire, s: State, e: SystemEvent, rest: seq<SystemEvent>)
    requires SidecarProtocol.Enabled(s, e) && SidecarProtocol.Legal(w, SidecarProtocol.Step(w, s, e), rest)
    ensures SidecarProtocol.Legal(w, s, [e] + rest)
    ensures SidecarProtocol.Run(w, s, [e] + rest)
            == SidecarProtocol.Run(w, SidecarProtocol.Step(w, s, e), rest)
  {
    assert ([e] + rest)[1..] == rest;
  }

  lemma AskedIsPending(w: Wire, s: State, call: Call, r: Request)
    requires SidecarProtocol.Enabled(s, SidecarProtocol.Event.Issue(call, r, true)) && CanSend(s, true)
    ensures IsPending(Issued(w, s, call, r, true).tables, r.kind, call.id)
    ensures call.id in Issued(w, s, call, r, true).asked && Issued(w, s, call, r, true).sup == s.sup
  {
    var t := TableOf(s.tables, r.kind);
    assert call in Next(t, RequestTable.Issue(call)).pending;
  }

  /** A new workspace and then the exit of the child it killed, for a supervisor that has one and may start another. */
  lemma RestartThenExit(w: Wire, s: State, k: Kind, id: Id)
    requires Sup.NewestIsCurrent(s.sup) && s.sup.current.Child? && !s.sup.quitting && !s.sup.suspended
    requires id in s.asked && IsPending(s.tables, k, id)
    ensures var es := [Lifecycle(Sup.ChooseWorkspace), Lifecycle(Sup.ChildExit(s.sup.current.id))];
            && SidecarProtocol.Legal(w, s, es)
            && IsPending(SidecarProtocol.Run(w, s, es).tables, k, id)
            && SidecarProtocol.Run(w, s, es).sup.current == Sup.Child(s.sup.spawned)
  {
    var choose, exit := Lifecycle(Sup.ChooseWorkspace), Lifecycle(Sup.ChildExit(s.sup.current.id));
    var t := LifecycleStep(s, Sup.ChooseWorkspace);
    assert t.tables == s.tables && t.sup.current == Sup.Child(s.sup.spawned);
    assert !Rejects(t, exit.e);
    LifecycleEnds(t, exit.e, k, id);
    assert SidecarProtocol.Run(w, LifecycleStep(t, exit.e), []) == LifecycleStep(t, exit.e);
    Unfolded(w, t, exit, []);
    Unfolded(w, s, choose, [exit] + []);
    assert [choose] + ([exit] + []) == [choose, exit];
  }

  /** A run from program start in which a request survives: it is sent to the first child, the workspace changes, the
      killed child exits, and the request is still pending while the second child runs. */
  lemma SurvivesTheRestart(w: Wire, call: Call, r: Request)
    ensures var ask := SidecarProtocol.Event.Issue(call, r, true);
            var es := [Lifecycle(Sup.Ready), ask] + [Lifecycle(Sup.ChooseWorkspace), Lifecycle(Sup.ChildExit(0))];
            && SidecarProtocol.Legal(w, SidecarProtocol.INITIAL, es)
            && IsPending(SidecarProtocol.Run(w, SidecarProtocol.INITIAL, es).tables, r.kind, call.id)
            && SidecarProtocol.Run(w, SidecarProtocol.INITIAL, es).sup.current == Sup.Child(1)
  {
    var s, ask := LifecycleStep(SidecarProtocol.INITIAL, Sup.Ready), SidecarProtocol.Event.Issue(call, r, true);
    var rest := [Lifecycle(Sup.ChooseWorkspace), Lifecycle(Sup.ChildExit(0))];
    AskedIsPending(w, s, call, r);
    RestartThenExit(w, Issued(w, s, call, r, true), r.kind, call.id);
    Unfolded(w, s, ask, rest);
    Unfolded(w, SidecarProtocol.INITIAL, Lifecycle(Sup.Ready), [ask] + rest);
    assert [Lifecycle(Sup.Ready)] + ([ask] + rest) == [Lifecycle(Sup.Ready), ask] + rest;
  }
}

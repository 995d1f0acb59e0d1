/** The recent-workspace list of apps/desktop/src/main/desktop-stores.ts. */
module RecentWorkspaces {
  import opened Collections

  const MAX_RECENT := 8

  function Take(s: seq<string>, n: nat): seq<string> {
    if n < |s| then s[..n] else s
  }

  function Without(s: seq<string>, x: string): seq<string> {
    if s == [] then []
    else if s[0] == x then Without(s[1..], x)
    else [s[0]] + Without(s[1..], x)
  }

  /** The entries that are still directories. */
  function Alive(s: seq<string>, dirs: set<string>): seq<string> {
    if s == [] then []
    else if s[0] in dirs then [s[0]] + Alive(s[1..], dirs)
    else Alive(s[1..], dirs)
  }

  /** A choice made while `dirs` are the directories on disk. */
  datatype Choice = Choice(dir: string, dirs: set<string>)

  /** The list before it is cut off. */
  function Updated(previous: seq<string>, choice: Choice): seq<string> {
    [choice.dir] + Alive(Without(previous, choice.dir), choice.dirs)
  }

  function Listed(previous: seq<string>, choice: Choice): seq<string> {
    Take(Updated(previous, choice), MAX_RECENT)
  }

  /** The stored list after a run of choices. */
  function Recent(choices: seq<Choice>): seq<string> {
    if choices == [] then [] else Listed(Recent(choices[..|choices| - 1]), choices[|choices| - 1])
  }

  /** `writeWorkspace` with the state that it replaces on disk. */
  class WorkspaceStore {
    var recent: seq<string>
    ghost var choices: seq<Choice>

    ghost predicate Valid()
      reads this
    {
      recent == Recent(choices)
    }

    constructor ()
      ensures Valid() && choices == []
    {
      recent, choices := [], [];
    }

    method WriteWorkspace(current: string, dirs: set<string>) returns (stored: seq<string>)
      requires Valid()
      modifies this
      ensures Valid() && choices == old(choices) + [Choice(current, dirs)]
      ensures stored == recent
    {
      recent := Take([current] + Alive(Without(recent, current), dirs), MAX_RECENT);
      choices := choices + [Choice(current, dirs)];
      stored := recent;
    }
  }

  // ---------------------------------------------------------------- the order of the list

  /** The number of choices up to and including the last choice of `x`; 0 if there is none. */
  function LastChoice(choices: seq<Choice>, x: string): nat {
    if choices == [] then 0
    else if choices[|choices| - 1].dir == x then |choices|
    else LastChoice(choices[..|choices| - 1], x)
  }

  /** Everything listed was chosen, and what was chosen later comes first; so nothing is listed twice. */
  ghost predicate LatestFirst(s: seq<string>, choices: seq<Choice>) {
    && (forall x :: x in s ==> LastChoice(choices, x) > 0)
    && (forall i, j :: 0 <= i < j < |s| ==> LastChoice(choices, s[i]) > LastChoice(choices, s[j]))
  }

  lemma {:induction false} LastChoiceBound(choices: seq<Choice>, x: string)
    ensures LastChoice(choices, x) <= |choices|
  {
    if choices != [] {
      LastChoiceBound(choices[..|choices| - 1], x);
    }
  }

  lemma {:induction false} WithoutIsFilter(s: seq<string>, x: string, y: string)
    ensures y in Without(s, x) <==> y in s && y != x
  {
    if s != [] {
      WithoutIsFilter(s[1..], x, y);
      assert y in s <==> y == s[0] || y in s[1..];
    }
  }

  lemma {:induction false} AliveIsFilter(s: seq<string>, dirs: set<string>, y: string)
    ensures y in Alive(s, dirs) <==> y in s && y in dirs
  {
    if s != [] {
      AliveIsFilter(s[1..], dirs, y);
      assert y in s <==> y == s[0] || y in s[1..];
    }
  }

  lemma {:induction false} WithoutKeepsOrder(s: seq<string>, x: string, choices: seq<Choice>)
    requires LatestFirst(s, choices)
    ensures LatestFirst(Without(s, x), choices)
  {
    if s != [] {
      assert LatestFirst(s[1..], choices);
      WithoutKeepsOrder(s[1..], x, choices);
      forall y | y in Without(s[1..], x)
        ensures LastChoice(choices, s[0]) > LastChoice(choices, y)
      {
        WithoutIsFilter(s[1..], x, y);
      }
    }
  }

  lemma {:induction false} AliveKeepsOrder(s: seq<string>, dirs: set<string>, choices: seq<Choice>)
    requires LatestFirst(s, choices)
    ensures LatestFirst(Alive(s, dirs), choices)
  {
    if s != [] {
      assert LatestFirst(s[1..], choices);
      AliveKeepsOrder(s[1..], dirs, choices);
      forall y | y in Alive(s[1..], dirs)
        ensures LastChoice(choices, s[0]) > LastChoice(choices, y)
      {
        AliveIsFilter(s[1..], dirs, y);
      }
    }
  }

  lemma OthersKeepTheirChoice(choices: seq<Choice>, choice: Choice, x: string)
    ensures LastChoice(choices + [choice], x) == if x == choice.dir then |choices| + 1 else LastChoice(choices, x)
  {
    assert (choices + [choice])[..|choices|] == choices;
  }

  lemma NewestInFront(rest: seq<string>, choices: seq<Choice>, choice: Choice)
    requires LatestFirst(rest, choices) && choice.dir !in rest
    ensures LatestFirst([choice.dir] + rest, choices + [choice])
  {
    forall x
      ensures LastChoice(choices + [choice], x) == if x == choice.dir then |choices| + 1 else LastChoice(choices, x)
    {
      OthersKeepTheirChoice(choices, choice, x);
    }
    forall x
      ensures LastChoice(choices, x) <= |choices|
    {
      LastChoiceBound(choices, x);
    }
  }

  lemma TakeKeepsOrder(s: seq<string>, n: nat, choices: seq<Choice>)
    requires LatestFirst(s, choices)
    ensures LatestFirst(Take(s, n), choices)
  {
  }

  lemma UpdatedHas(previous: seq<string>, choice: Choice, x: string)
    ensures x in Updated(previous, choice) <==> x == choice.dir || (x in previous && x in choice.dirs)
  {
    AliveIsFilter(Without(previous, choice.dir), choice.dirs, x);
    WithoutIsFilter(previous, choice.dir, x);
  }

  lemma UpdatedIsLatestFirst(previous: seq<string>, before: seq<Choice>, choice: Choice)
    requires LatestFirst(previous, before)
    ensures LatestFirst(Updated(previous, choice), before + [choice])
  {
    var rest := Without(previous, choice.dir);
    WithoutKeepsOrder(previous, choice.dir, before);
    AliveKeepsOrder(rest, choice.dirs, before);
    AliveIsFilter(rest, choice.dirs, choice.dir);
    WithoutIsFilter(previous, choice.dir, choice.dir);
    NewestInFront(Alive(rest, choice.dirs), before, choice);
  }

  /** Whatever happens on disk, the list is latest first, at most eight long, and starts with the current workspace. */
  lemma {:induction false} RecentIsLatestFirst(choices: seq<Choice>)
    ensures LatestFirst(Recent(choices), choices)
    ensures |Recent(choices)| <= 8
    ensures choices != [] ==> Recent(choices) != [] && Recent(choices)[0] == choices[|choices| - 1].dir
  {
    if choices != [] {
      var before, choice := choices[..|choices| - 1], choices[|choices| - 1];
      RecentIsLatestFirst(before);
      UpdatedIsLatestFirst(Recent(before), before, choice);
      assert before + [choice] == choices;
      TakeKeepsOrder(Updated(Recent(before), choice), MAX_RECENT, choices);
    }
  }

  // ---------------------------------------------------------------- the whole history

  /** The whole history, latest first, without repetitions and without a bound. */
  function History(choices: seq<Choice>): seq<string> {
    if choices == [] then []
    else
      var last := choices[|choices| - 1].dir;
      [last] + Without(History(choices[..|choices| - 1]), last)
  }

  lemma HistoryGrows(before: seq<Choice>, choice: Choice, history: seq<string>)
    requires LatestFirst(history, before) && forall x :: LastChoice(before, x) > 0 ==> x in history
    ensures LatestFirst([choice.dir] + Without(history, choice.dir), before + [choice])
  {
    WithoutKeepsOrder(history, choice.dir, before);
    WithoutIsFilter(history, choice.dir, choice.dir);
    NewestInFront(Without(history, choice.dir), before, choice);
  }

  /** The history is the list of everything chosen, in the order of last choices. */
  lemma {:induction false} HistoryIsComplete(choices: seq<Choice>)
    ensures LatestFirst(History(choices), choices)
    ensures forall x :: LastChoice(choices, x) > 0 ==> x in History(choices)
  {
    if choices != [] {
      var before, choice := choices[..|choices| - 1], choices[|choices| - 1];
      assert before + [choice] == choices;
      HistoryIsComplete(before);
      HistoryGrows(before, choice, History(before));
      HistoryKeepsAll(before, choice, History(before));
    }
  }

  lemma HistoryKeepsAll(before: seq<Choice>, choice: Choice, history: seq<string>)
    requires forall x :: LastChoice(before, x) > 0 ==> x in history
    ensures forall x :: LastChoice(before + [choice], x) > 0 ==> x in [choice.dir] + Without(history, choice.dir)
  {
    forall x | LastChoice(before + [choice], x) > 0
      ensures x in [choice.dir] + Without(history, choice.dir)
    {
      OthersKeepTheirChoice(before, choice, x);
      WithoutIsFilter(history, choice.dir, x);
    }
  }

  lemma {:induction false} WithoutAbsent(s: seq<string>, x: string)
    requires x !in s
    ensures Without(s, x) == s
  {
    if s != [] {
      WithoutAbsent(s[1..], x);
      assert s == [s[0]] + s[1..];
    }
  }

  /** Taking one entry out of the first n leaves the first n - 1 of what taking it out of the whole leaves. */
  lemma {:induction false} TakeThenWithout(s: seq<string>, x: string, n: nat)
    requires NoRepeats(s) && n > 0
    ensures Take(Without(Take(s, n), x), n - 1) == Take(Without(s, x), n - 1)
    decreases |s|
  {
    if s == [] {
    } else if s[0] == x {
      WithoutAbsent(s[1..], x);
      TakeTail(s, n);
      WithoutAbsent(Take(s[1..], n - 1), x);
      TakeTwice(s[1..], n - 1);
    } else if n == 1 {
    } else {
      TakeThenWithout(s[1..], x, n - 1);
      TakeTail(s, n);
      TakeCons(s[0], Without(s[1..], x), n - 1);
      TakeCons(s[0], Without(Take(s[1..], n - 1), x), n - 1);
    }
  }

  lemma TakeTail(s: seq<string>, n: nat)
    requires s != [] && n > 0
    ensures Take(s, n) == [s[0]] + Take(s[1..], n - 1)
    ensures Take(s, n)[1..] == Take(s[1..], n - 1)
  {
    if n < |s| {
      assert s[..n] == [s[0]] + s[1..][..n - 1];
    } else {
      assert s == [s[0]] + s[1..];
    }
  }

  lemma TakeTwice(s: seq<string>, n: nat)
    ensures Take(Take(s, n), n) == Take(s, n)
  {
  }

  lemma TakeCons(x: string, s: seq<string>, n: nat)
    requires n > 0
    ensures Take([x] + s, n) == [x] + Take(s, n - 1)
  {
  }

  lemma LatestFirstHasNoRepeats(s: seq<string>, choices: seq<Choice>)
    requires LatestFirst(s, choices)
    ensures NoRepeats(s)
  {
    forall i, j | 0 <= i < j < |s|
      ensures s[i] != s[j]
    {
      assert LastChoice(choices, s[i]) > LastChoice(choices, s[j]);
    }
  }

  // ---------------------------------------------------------------- when truncating loses nothing

  /** `x` has been a directory at every choice after the last choice of it. */
  predicate StayedSince(choices: seq<Choice>, x: string) {
    forall j :: LastChoice(choices, x) <= j < |choices| ==> x in choices[j].dirs
  }

  lemma StayedOneMore(before: seq<Choice>, choice: Choice, x: string)
    requires x != choice.dir
    ensures StayedSince(before + [choice], x) <==> StayedSince(before, x) && x in choice.dirs
  {
    var choices := before + [choice];
    OthersKeepTheirChoice(before, choice, x);
    LastChoiceBound(before, x);
    assert forall j :: 0 <= j < |before| ==> choices[j] == before[j];
    assert choices[|before|] == choice;
  }

  /** Whatever is listed has stayed: a workspace that stopped being a directory is gone until it is chosen again. */
  lemma {:induction false} ListedHasStayed(choices: seq<Choice>, x: string)
    requires x in Recent(choices)
    ensures StayedSince(choices, x)
  {
    var before, choice := choices[..|choices| - 1], choices[|choices| - 1];
    assert before + [choice] == choices;
    if x != choice.dir {
      UpdatedHas(Recent(before), choice, x);
      ListedHasStayed(before, x);
      StayedOneMore(before, choice, x);
    }
  }

  lemma TailIsLatestFirst(s: seq<string>, choices: seq<Choice>)
    requires LatestFirst(s, choices) && s != []
    ensures LatestFirst(s[1..], choices)
    ensures forall y :: y in s[1..] <==> y in s && y != s[0]
  {
    assert s == [s[0]] + s[1..];
    LatestFirstHasNoRepeats(s, choices);
  }

  /** Of two latest-first lists, one part of the other, the part starts like the whole or misses its first entry. */
  lemma FirstOfPart(part: seq<string>, whole: seq<string>, choices: seq<Choice>)
    requires LatestFirst(part, choices) && LatestFirst(whole, choices)
    requires (forall y :: y in part ==> y in whole) && part != []
    ensures whole != [] && (part[0] == whole[0] || whole[0] !in part)
  {
    assert part[0] in whole;
  }

  lemma TakeOfTail(s: seq<string>, x: string, n: nat)
    requires s != [] && x in Take(s, n) && x != s[0]
    ensures n > 0 && x in Take(s[1..], n - 1) && x in Take(s[1..], n)
  {
    TakeTail(s, n);
    var shorter := Take(s[1..], n - 1);
    assert shorter <= Take(s[1..], n);
  }

  /** Among the first n of a latest-first list `x` is also among the first n of any latest-first part of it. */
  lemma {:induction false} AheadInBoth(
      part: seq<string>, whole: seq<string>, choices: seq<Choice>, x: string, n: nat)
    requires LatestFirst(part, choices) && LatestFirst(whole, choices)
    requires (forall y :: y in part ==> y in whole) && x in part && x in Take(whole, n)
    ensures x in Take(part, n)
    decreases |whole|
  {
    FirstOfPart(part, whole, choices);
    TakeTail(part, n);
    if x != part[0] {
      TailIsLatestFirst(whole, choices);
      TakeOfTail(whole, x, n);
      if part[0] == whole[0] {
        TailIsLatestFirst(part, choices);
        AheadInBoth(part[1..], whole[1..], choices, x, n - 1);
      } else {
        AheadInBoth(part, whole[1..], choices, x, n);
      }
    }
  }

  /** What was chosen before the newest choice is further back in the history than it was, if it moves at all. */
  lemma AmongTheFirstBefore(choices: seq<Choice>, before: seq<Choice>, choice: Choice, x: string)
    requires choices == before + [choice] && x != choice.dir && x in Take(History(choices), MAX_RECENT)
    ensures x in Take(History(before), MAX_RECENT)
  {
    var h := History(before);
    assert choices[..|choices| - 1] == before;
    HistoryIsComplete(before);
    LatestFirstHasNoRepeats(h, before);
    TakeCons(choice.dir, Without(h, choice.dir), MAX_RECENT);
    TakeThenWithout(h, choice.dir, MAX_RECENT);
    assert x in Without(Take(h, MAX_RECENT), choice.dir);
    WithoutIsFilter(Take(h, MAX_RECENT), choice.dir, x);
  }

  /** The first eight of the history are listed as far as they have stayed: only entries in front push one out. */
  lemma {:induction false} StayingIsListed(choices: seq<Choice>, x: string)
    requires x in Take(History(choices), MAX_RECENT) && StayedSince(choices, x)
    ensures x in Recent(choices)
  {
    var before, choice := choices[..|choices| - 1], choices[|choices| - 1];
    assert choices == before + [choice];
    var listed := Updated(Recent(before), choice);
    if x != choice.dir {
      AmongTheFirstBefore(choices, before, choice, x);
      StayedOneMore(before, choice, x);
      StayingIsListed(before, x);
      UpdatedHas(Recent(before), choice, x);
    }
    RecentIsLatestFirst(before);
    UpdatedIsLatestFirst(Recent(before), before, choice);
    HistoryIsComplete(choices);
    AheadInBoth(listed, History(choices), choices, x, MAX_RECENT);
  }

  predicate Among(part: seq<string>, whole: seq<string>) {
    forall y :: y in part ==> y in whole
  }

  lemma TailsAmong(part: seq<string>, whole: seq<string>, choices: seq<Choice>)
    requires LatestFirst(part, choices) && LatestFirst(whole, choices) && Among(part, whole)
    requires part != [] && whole != [] && part[0] == whole[0]
    ensures LatestFirst(part[1..], choices) && LatestFirst(whole[1..], choices) && Among(part[1..], whole[1..])
  {
    TailIsLatestFirst(part, choices);
    TailIsLatestFirst(whole, choices);
  }

  lemma FirstOfTailAmong(part: seq<string>, whole: seq<string>, choices: seq<Choice>, n: nat)
    requires LatestFirst(whole, choices) && n > 0 && Among(Take(whole, n), part)
    requires part != [] && whole != [] && part[0] == whole[0]
    ensures Among(Take(whole[1..], n - 1), part[1..])
  {
    TailIsLatestFirst(whole, choices);
    TakeTail(whole, n);
    forall y | y in Take(whole[1..], n - 1)
      ensures y in part[1..]
    {
      assert y in Take(whole, n) && y in whole[1..];
      assert part == [part[0]] + part[1..];
    }
  }

  /** A latest-first list of at most n entries of another that has its first n is those n. */
  lemma {:induction false} LatestFirstIsUnique(part: seq<string>, whole: seq<string>, choices: seq<Choice>, n: nat)
    requires LatestFirst(part, choices) && LatestFirst(whole, choices) && |part| <= n
    requires Among(part, whole) && Among(Take(whole, n), part)
    ensures part == Take(whole, n)
    decreases |whole|
  {
    TakeFirst(whole, n);
    if part != [] {
      FirstOfPart(part, whole, choices);
      TailsAmong(part, whole, choices);
      FirstOfTailAmong(part, whole, choices, n);
      LatestFirstIsUnique(part[1..], whole[1..], choices, n - 1);
      SameHeadAndTail(part, whole, n);
    }
  }

  lemma SameHeadAndTail(part: seq<string>, whole: seq<string>, n: nat)
    requires part != [] && whole != [] && n > 0
    requires part[0] == whole[0] && part[1..] == Take(whole[1..], n - 1)
    ensures part == Take(whole, n)
  {
    TakeTail(whole, n);
    assert part == [part[0]] + part[1..];
  }

  lemma TakeFirst(s: seq<string>, n: nat)
    ensures Take(s, n) == [] <==> s == [] || n == 0
    ensures Take(s, n) != [] ==> s[0] in Take(s, n)
  {
    if s != [] && n > 0 {
      TakeTail(s, n);
    }
  }

  /** The stored list is the first eight of the whole history exactly if each of those eight has been a directory ever
      since it was last chosen. */
  lemma TruncatingLosesNothing(choices: seq<Choice>)
    ensures Recent(choices) == Take(History(choices), MAX_RECENT) <==>
            forall x :: x in Take(History(choices), MAX_RECENT) ==> StayedSince(choices, x)
  {
    var first := Take(History(choices), MAX_RECENT);
    if forall x :: x in first ==> StayedSince(choices, x) {
      forall x | x in first
        ensures x in Recent(choices)
      {
        StayingIsListed(choices, x);
      }
      RecentIsLatestFirst(choices);
      HistoryIsComplete(choices);
      LatestFirstIsUnique(Recent(choices), History(choices), choices, MAX_RECENT);
    }
    if Recent(choices) == first {
      forall x | x in first
        ensures StayedSince(choices, x)
      {
        ListedHasStayed(choices, x);
      }
    }
  }

  /** Everything chosen is still a directory at every later choice. */
  predicate AllStay(choices: seq<Choice>) {
    forall i, j :: 0 <= i <= j < |choices| ==> choices[i].dir in choices[j].dirs
  }

  lemma {:induction false} ChosenAt(choices: seq<Choice>, x: string)
    requires LastChoice(choices, x) > 0
    ensures LastChoice(choices, x) <= |choices| && choices[LastChoice(choices, x) - 1].dir == x
  {
    if choices[|choices| - 1].dir != x {
      ChosenAt(choices[..|choices| - 1], x);
    }
  }

  lemma NothingIsLostWhileAllStay(choices: seq<Choice>)
    requires AllStay(choices)
    ensures Recent(choices) == Take(History(choices), MAX_RECENT)
  {
    HistoryIsComplete(choices);
    forall x | x in Take(History(choices), MAX_RECENT)
      ensures StayedSince(choices, x)
    {
      ChosenAt(choices, x);
    }
    TruncatingLosesNothing(choices);
  }

  /** A run in which an entry is lost: "a" is no directory when "b" is chosen, and stays unlisted when it is back. */
  lemma LostWhileAway()
    ensures var choices := [Choice("a", {"a"}), Choice("b", {"b"}), Choice("c", {"a", "b", "c"})];
            Recent(choices) == ["c", "b"] && Take(History(choices), MAX_RECENT) == ["c", "b", "a"]
  {
    Unfold([], Choice("a", {"a"}));
    Unfold([Choice("a", {"a"})], Choice("b", {"b"}));
    Unfold([Choice("a", {"a"}), Choice("b", {"b"})], Choice("c", {"a", "b", "c"}));
    OnlyOne("a", "b", {"b"});
    OnlyOne("b", "c", {"a", "b", "c"});
    OnlyOne("a", "c", {});
    assert ["b", "a"][1..] == ["a"];
    assert Without(["b", "a"], "c") == ["b"] + Without(["a"], "c");
  }

  lemma OnlyOne(x: string, other: string, dirs: set<string>)
    ensures Without([x], other) == if x == other then [] else [x]
    ensures Alive([x], dirs) == if x in dirs then [x] else []
  {
    assert [x][1..] == [];
  }

  lemma Unfold(before: seq<Choice>, choice: Choice)
    ensures Recent(before + [choice]) == Listed(Recent(before), choice)
    ensures History(before + [choice]) == [choice.dir] + Without(History(before), choice.dir)
  {
    assert (before + [choice])[..|before|] == before;
  }

  /** A workspace that has stayed is missing from the list only if eight others were all chosen after it; while
      everything stays, these eight are the list. */
  lemma ForgottenOnlyForEightNewer(choices: seq<Choice>, x: string)
    requires LastChoice(choices, x) > 0 && StayedSince(choices, x) && x !in Recent(choices)
    ensures var newer := Take(History(choices), MAX_RECENT);
            && |newer| == 8 && NoRepeats(newer)
            && (forall y :: y in newer ==> LastChoice(choices, y) > LastChoice(choices, x))
            && (AllStay(choices) ==> Recent(choices) == newer)
  {
    if x in Take(History(choices), MAX_RECENT) {
      StayingIsListed(choices, x);
      assert false;
    }
    if AllStay(choices) {
      NothingIsLostWhileAllStay(choices);
    }
    HistoryIsComplete(choices);
    LatestFirstHasNoRepeats(History(choices), choices);
    var history := History(choices);
    var k :| 0 <= k < |history| && history[k] == x;
  }
}

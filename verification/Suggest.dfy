/**
 * "Did you mean": `nearest` of packages/cli/src/cli/parser.ts and `suggestSlashCommands` of
 * packages/cli/src/commands/command-input.ts. Case folding and the collation behind `localeCompare` are parameters.
 */
module Suggest {
  import opened Collections
  import EditDistance
  import StableSort

  type Compare = StableSort.Compare

  /** A candidate, its place among the candidates, and its distance from the input. */
  datatype Scored = Scored(index: nat, name: string, distance: nat)

  /** The callback given to `sort`. */
  function Comparator(compare: Compare, x: Scored, y: Scored): int {
    if x.distance != y.distance then x.distance - y.distance else compare(x.name, y.name)
  }

  /** Closer; or as close with a smaller name; or, with equal names, further to the front of the candidates. */
  predicate Better(compare: Compare, x: Scored, y: Scored) {
    || x.distance < y.distance
    || (x.distance == y.distance
        && (compare(x.name, y.name) < 0 || (compare(x.name, y.name) == 0 && x.index < y.index)))
  }

  function Before(compare: Compare): (Scored, Scored) -> bool {
    (x, y) => Comparator(compare, x, y) <= 0
  }

  function Place(): Scored -> int {
    (x: Scored) => x.index
  }

  function Sort(compare: Compare, s: seq<Scored>): seq<Scored> {
    StableSort.Sort(Before(compare), s)
  }

  ghost predicate Ranked(compare: Compare, s: seq<Scored>) {
    forall i, j :: 0 <= i < j < |s| ==> Better(compare, s[i], s[j])
  }

  predicate InOrder(s: seq<Scored>) {
    forall i, j :: 0 <= i < j < |s| ==> s[i].index < s[j].index
  }

  lemma BeforeIsConsistent(compare: Compare)
    requires StableSort.IsCollation(compare)
    ensures StableSort.IsConsistent(Before(compare))
  {
    forall x, y
      ensures Before(compare)(x, y) || Before(compare)(y, x)
    {
      assert compare(x.name, y.name) > 0 ==> compare(y.name, x.name) < 0;
    }
  }

  lemma BetterPrecedes(compare: Compare, x: Scored, y: Scored)
    requires StableSort.IsCollation(compare)
    ensures Better(compare, x, y) <==> StableSort.Precedes(Before(compare), Place(), x, y)
  {
    assert compare(x.name, y.name) < 0 <==> compare(y.name, x.name) > 0;
    assert compare(y.name, x.name) < 0 <==> compare(x.name, y.name) > 0;
  }

  /** Candidates listed in order come out ranked, and all of them do. */
  lemma SortedElements(compare: Compare, s: seq<Scored>, sorted: seq<Scored>)
    requires StableSort.IsCollation(compare) && InOrder(s) && sorted == Sort(compare, s)
    ensures Ranked(compare, sorted)
    ensures forall x :: x in sorted <==> x in s
    ensures sorted == [] <==> s == []
  {
    BeforeIsConsistent(compare);
    StableSort.SortedElements(Before(compare), Place(), s, sorted);
    forall i, j | 0 <= i < j < |sorted|
      ensures Better(compare, sorted[i], sorted[j])
    {
      BetterPrecedes(compare, sorted[i], sorted[j]);
    }
  }

  // ---------------------------------------------------------------- nearest

  /** The greatest distance still suggested. */
  function Limit(length: nat): nat {
    if length / 3 > 2 then length / 3 else 2
  }

  /** Two edits are always forgiven, and one for every three characters typed. */
  predicate InReach(distance: nat, length: nat) {
    distance <= 2 || 3 * distance <= length
  }

  lemma LimitIsReach(distance: nat, length: nat)
    ensures distance <= Limit(length) <==> InReach(distance, length)
  {
  }

  function Score(lower: string -> string, input: string, candidates: seq<string>): seq<Scored> {
    seq(|candidates|, i requires 0 <= i < |candidates| =>
      Scored(i, candidates[i], EditDistance.Distance(lower(input), lower(candidates[i]))))
  }

  /** The first after sorting, unless it is out of reach. */
  function Pick(compare: Compare, scored: seq<Scored>, reach: nat): Option<string> {
    var ranked := Sort(compare, scored);
    if ranked == [] then None
    else if ranked[0].distance <= reach then Some(ranked[0].name)
    else None
  }

  function Nearest(lower: string -> string, compare: Compare, input: string, candidates: seq<string>): Option<string> {
    Pick(compare, Score(lower, input, candidates), Limit(|input|))
  }

  /** Every candidate carries its own place. */
  predicate Numbered(s: seq<Scored>) {
    forall i :: 0 <= i < |s| ==> s[i].index == i
  }

  lemma FirstIsBest(compare: Compare, scored: seq<Scored>, ranked: seq<Scored>)
    requires Numbered(scored) && Ranked(compare, ranked) && forall x :: x in ranked <==> x in scored
    ensures ranked != [] ==> ranked[0].index < |scored| && scored[ranked[0].index] == ranked[0]
    ensures forall x :: x in scored ==> ranked != [] && (x == ranked[0] || Better(compare, ranked[0], x))
  {
    if ranked != [] {
      assert ranked[0] in scored;
    }
  }

  lemma PickIsBest(compare: Compare, scored: seq<Scored>, reach: nat) returns (best: nat)
    requires StableSort.IsCollation(compare) && Numbered(scored)
    ensures Pick(compare, scored, reach).None? <==> forall x :: x in scored ==> x.distance > reach
    ensures Pick(compare, scored, reach).Some? ==>
              && best < |scored| && Pick(compare, scored, reach).value == scored[best].name
              && scored[best].distance <= reach
              && forall i :: 0 <= i < |scored| && i != best ==> Better(compare, scored[best], scored[i])
  {
    var ranked := Sort(compare, scored);
    SortedElements(compare, scored, ranked);
    best := if ranked == [] then 0 else ranked[0].index;
    FirstIsBest(compare, scored, ranked);
  }

  /** Nothing is suggested when every candidate is too far away; otherwise the best of all, the first of equals. */
  lemma NearestIsBest(lower: string -> string, compare: Compare, input: string, candidates: seq<string>)
      returns (best: nat)
    requires StableSort.IsCollation(compare)
    ensures var score := Score(lower, input, candidates);
            var suggested := Nearest(lower, compare, input, candidates);
            && (suggested.None? <==> forall x :: x in score ==> !InReach(x.distance, |input|))
            && (suggested.Some? ==>
                  && best < |candidates| && suggested.value == candidates[best]
                  && InReach(score[best].distance, |input|)
                  && forall i :: 0 <= i < |candidates| && i != best ==> Better(compare, score[best], score[i]))
  {
    best := PickIsBest(compare, Score(lower, input, candidates), Limit(|input|));
    forall x | x in Score(lower, input, candidates)
      ensures x.distance <= Limit(|input|) <==> InReach(x.distance, |input|)
    {
      LimitIsReach(x.distance, |input|);
    }
  }

  /** A name at most two edits from the input, case aside, is never beyond reach. */
  lemma TwoTyposAreForgiven(lower: string -> string, compare: Compare, input: string, candidates: seq<string>,
                            intended: string, script: seq<EditDistance.Edit>)
    requires StableSort.IsCollation(compare) && intended in candidates
    requires EditDistance.Turns(script, lower(input), lower(intended)) && |script| <= 2
    ensures Nearest(lower, compare, input, candidates).Some?
  {
    EditDistance.NoScriptIsShorter(script, lower(input), lower(intended));
    var best := NearestIsBest(lower, compare, input, candidates);
    var i :| 0 <= i < |candidates| && candidates[i] == intended;
    assert Score(lower, input, candidates)[i] in Score(lower, input, candidates);
  }

  // ---------------------------------------------------------------- slash commands

  datatype Command = Command(name: string, aliases: seq<string>)

  function Names(command: Command): seq<string> {
    [command.name] + command.aliases
  }

  /** `Math.min(...distances)` */
  function Closest(lower: string -> string, query: string, names: seq<string>): nat
    requires names != []
  {
    var d := EditDistance.Distance(query, lower(names[0]));
    if |names| == 1 then d else EditDistance.Min(d, Closest(lower, query, names[1..]))
  }

  function ScoreCommands(lower: string -> string, query: string, commands: seq<Command>): seq<Scored> {
    seq(|commands|, i requires 0 <= i < |commands| =>
      Scored(i, commands[i].name, Closest(lower, query, Names(commands[i]))))
  }

  function WithinReach(s: seq<Scored>, reach: nat): seq<Scored> {
    if s == [] then []
    else if s[0].distance <= reach then [s[0]] + WithinReach(s[1..], reach)
    else WithinReach(s[1..], reach)
  }

  /** `slice(0, Math.max(0, limit))` */
  function FirstOf<T>(s: seq<T>, limit: int): seq<T> {
    if limit <= 0 then [] else if limit < |s| then s[..limit] else s
  }

  function TopNames(compare: Compare, scored: seq<Scored>, reach: nat, limit: int): seq<string> {
    var best := FirstOf(Sort(compare, WithinReach(scored, reach)), limit);
    seq(|best|, i requires 0 <= i < |best| => best[i].name)
  }

  function SuggestSlashCommands(
      lower: string -> string, compare: Compare, input: string, commands: seq<Command>, limit: int): seq<string> {
    TopNames(compare, ScoreCommands(lower, lower(input), commands), Limit(|lower(input)|), limit)
  }

  /** A command is as close as the closest of its name and aliases. */
  lemma {:induction false} ClosestIsLeast(lower: string -> string, query: string, names: seq<string>) returns (k: nat)
    requires names != []
    ensures k < |names| && Closest(lower, query, names) == EditDistance.Distance(query, lower(names[k]))
    ensures forall n :: n in names ==> Closest(lower, query, names) <= EditDistance.Distance(query, lower(n))
  {
    k := 0;
    if |names| > 1 {
      var rest := ClosestIsLeast(lower, query, names[1..]);
      if Closest(lower, query, names) != EditDistance.Distance(query, lower(names[0])) {
        k := rest + 1;
      }
      assert forall n :: n in names ==> n == names[0] || n in names[1..];
    }
  }

  lemma {:induction false} ReachIsFilter(s: seq<Scored>, reach: nat)
    requires InOrder(s)
    ensures InOrder(WithinReach(s, reach))
    ensures forall x :: x in WithinReach(s, reach) <==> x in s && x.distance <= reach
  {
    if s != [] {
      ReachIsFilter(s[1..], reach);
      assert forall x :: x in s <==> x == s[0] || x in s[1..];
    }
  }

  /**
   * The picked candidates are within reach, best first and no more than the limit; any other within reach is worse
   * than each of them, and is left out only because the limit is met.
   */
  ghost predicate AreTheBest(compare: Compare, picks: seq<nat>, scored: seq<Scored>, reach: nat, limit: int) {
    && |picks| <= (if limit < 0 then 0 else limit)
    && (forall k :: 0 <= k < |picks| ==> picks[k] < |scored| && scored[picks[k]].distance <= reach)
    && (forall k, l :: 0 <= k < l < |picks| ==> Better(compare, scored[picks[k]], scored[picks[l]]))
    && (forall i :: 0 <= i < |scored| && scored[i].distance <= reach && i !in picks ==>
          |picks| >= limit && forall k :: 0 <= k < |picks| ==> Better(compare, scored[picks[k]], scored[i]))
  }

  lemma LeftOut(compare: Compare, sorted: seq<Scored>, n: nat, x: Scored)
    requires Ranked(compare, sorted) && n <= |sorted|
    requires x in sorted && x !in sorted[..n]
    ensures n < |sorted| && forall k :: 0 <= k < n ==> Better(compare, sorted[k], x)
  {
    var p :| 0 <= p < |sorted| && sorted[p] == x;
  }

  lemma SortedReachable(compare: Compare, scored: seq<Scored>, reach: nat, sorted: seq<Scored>)
    requires StableSort.IsCollation(compare) && InOrder(scored) && sorted == Sort(compare, WithinReach(scored, reach))
    ensures Ranked(compare, sorted)
    ensures forall x :: x in sorted <==> x in scored && x.distance <= reach
  {
    ReachIsFilter(scored, reach);
    SortedElements(compare, WithinReach(scored, reach), sorted);
  }

  lemma FirstAreBest(compare: Compare, scored: seq<Scored>, reach: nat, limit: int, sorted: seq<Scored>, n: nat)
      returns (picks: seq<nat>)
    requires Numbered(scored) && Ranked(compare, sorted)
    requires forall x :: x in sorted <==> x in scored && x.distance <= reach
    requires n == if limit < 0 then 0 else if limit < |sorted| then limit else |sorted|
    ensures AreTheBest(compare, picks, scored, reach, limit) && |picks| == n
    ensures forall k :: 0 <= k < n ==> sorted[k].name == scored[picks[k]].name
  {
    picks := seq(n, k requires 0 <= k < n => sorted[k].index);
    forall k | 0 <= k < n
      ensures picks[k] < |scored| && scored[picks[k]] == sorted[k] && sorted[k].distance <= reach
    {
      assert sorted[k] in sorted;
    }
    forall i | 0 <= i < |scored| && scored[i].distance <= reach && i !in picks
      ensures n >= limit && forall k :: 0 <= k < n ==> Better(compare, sorted[k], scored[i])
    {
      LeftOut(compare, sorted, n, scored[i]);
    }
  }

  lemma TopIsBest(compare: Compare, scored: seq<Scored>, reach: nat, limit: int) returns (picks: seq<nat>)
    requires StableSort.IsCollation(compare) && Numbered(scored)
    ensures AreTheBest(compare, picks, scored, reach, limit)
    ensures |TopNames(compare, scored, reach, limit)| == |picks|
    ensures forall k :: 0 <= k < |picks| ==> TopNames(compare, scored, reach, limit)[k] == scored[picks[k]].name
  {
    var sorted := Sort(compare, WithinReach(scored, reach));
    SortedReachable(compare, scored, reach, sorted);
    picks := FirstAreBest(compare, scored, reach, limit, sorted, |FirstOf(sorted, limit)|);
  }

  /** The suggestions are the names of the best commands within reach, best first, as many as the limit allows. */
  lemma SuggestsTheBest(lower: string -> string, compare: Compare, input: string, commands: seq<Command>, limit: int)
      returns (picks: seq<nat>)
    requires StableSort.IsCollation(compare)
    ensures AreTheBest(compare, picks, ScoreCommands(lower, lower(input), commands), Limit(|lower(input)|), limit)
    ensures var suggested := SuggestSlashCommands(lower, compare, input, commands, limit);
            |suggested| == |picks| && forall k :: 0 <= k < |picks| ==> suggested[k] == commands[picks[k]].name
  {
    picks := TopIsBest(compare, ScoreCommands(lower, lower(input), commands), Limit(|lower(input)|), limit);
  }

  /** Whatever is suggested is at most two edits from the input, or one for every three characters of it, by its name or
      an alias; and with room for all commands, all of those are suggested. */
  lemma SuggestsExactlyTheClose(
      lower: string -> string, compare: Compare, input: string, commands: seq<Command>, limit: int, i: nat)
    requires StableSort.IsCollation(compare) && i < |commands|
    ensures var suggested := SuggestSlashCommands(lower, compare, input, commands, limit);
            && (forall k :: 0 <= k < |suggested| ==> NamesACloseOne(lower, input, commands, suggested[k]))
            && (|suggested| < limit && (exists n :: IsCloseBy(lower, input, commands[i], n)) ==>
                  commands[i].name in suggested)
  {
    var suggested := SuggestSlashCommands(lower, compare, input, commands, limit);
    var picks := SuggestsTheBest(lower, compare, input, commands, limit);
    forall k | 0 <= k < |suggested|
      ensures NamesACloseOne(lower, input, commands, suggested[k])
    {
      var c := commands[picks[k]];
      var n := CloseByName(lower, input, c);
      assert c in commands && Names(c)[n] in Names(c) && IsCloseBy(lower, input, c, Names(c)[n]);
    }
    if n :| IsCloseBy(lower, input, commands[i], n) {
      CloseIsReached(lower, input, commands[i], n);
      if i in picks {
        var k :| 0 <= k < |picks| && picks[k] == i;
        assert suggested[k] == commands[i].name;
      }
    }
  }

  /** `n` is the command's name or an alias, and close to the input. */
  predicate IsCloseBy(lower: string -> string, input: string, c: Command, n: string) {
    (n == c.name || n in c.aliases) && InReach(EditDistance.Distance(lower(input), lower(n)), |lower(input)|)
  }

  predicate NamesACloseOne(lower: string -> string, input: string, commands: seq<Command>, name: string) {
    exists c, n :: c in commands && c.name == name && n in Names(c) && IsCloseBy(lower, input, c, n)
  }

  lemma CloseByName(lower: string -> string, input: string, c: Command) returns (k: nat)
    requires Closest(lower, lower(input), Names(c)) <= Limit(|lower(input)|)
    ensures k < |Names(c)| && IsCloseBy(lower, input, c, Names(c)[k])
  {
    k := ClosestIsLeast(lower, lower(input), Names(c));
    LimitIsReach(Closest(lower, lower(input), Names(c)), |lower(input)|);
    assert Names(c)[k] in Names(c);
  }

  lemma CloseIsReached(lower: string -> string, input: string, c: Command, n: string)
    requires IsCloseBy(lower, input, c, n)
    ensures Closest(lower, lower(input), Names(c)) <= Limit(|lower(input)|)
  {
    var k := ClosestIsLeast(lower, lower(input), Names(c));
    assert Names(c)[0] == c.name && (n in c.aliases ==> n in Names(c));
    LimitIsReach(EditDistance.Distance(lower(input), lower(n)), |lower(input)|);
  }

  /** A name or an alias typed in full, case aside, brings up first a command that is called so. */
  lemma TypedInFullComesFirst(
      lower: string -> string, compare: Compare, input: string, commands: seq<Command>, limit: int, i: nat, n: string)
    requires StableSort.IsCollation(compare) && i < |commands| && limit > 0
    requires (n == commands[i].name || n in commands[i].aliases) && lower(n) == lower(input)
    ensures var suggested := SuggestSlashCommands(lower, compare, input, commands, limit);
            suggested != [] && exists c :: c in commands && suggested[0] == c.name && IsCalled(lower, c, lower(input))
  {
    var query := lower(input);
    var picks := SuggestsTheBest(lower, compare, input, commands, limit);
    FullNameIsClosest(lower, query, commands[i], n);
    var score := ScoreCommands(lower, query, commands);
    assert score[i].distance == 0;
    assert picks != [];
    assert i in picks || Better(compare, score[picks[0]], score[i]);
    BestIsFirst(compare, picks, score, i, Limit(|query|), limit);
    ClosestIsCalledSo(lower, query, commands[picks[0]]);
  }

  predicate IsCalled(lower: string -> string, c: Command, query: string) {
    lower(c.name) == query || exists a :: a in c.aliases && lower(a) == query
  }

  lemma FullNameIsClosest(lower: string -> string, query: string, c: Command, n: string)
    requires (n == c.name || n in c.aliases) && lower(n) == query
    ensures Closest(lower, query, Names(c)) == 0
  {
    var k := ClosestIsLeast(lower, query, Names(c));
    assert Names(c)[0] == c.name && (n in c.aliases ==> n in Names(c));
    EditDistance.DistanceIsAMetric(query, lower(n), query);
  }

  lemma ClosestIsCalledSo(lower: string -> string, query: string, c: Command)
    requires Closest(lower, query, Names(c)) == 0
    ensures IsCalled(lower, c, query)
  {
    var k := ClosestIsLeast(lower, query, Names(c));
    EditDistance.DistanceIsAMetric(query, lower(Names(c)[k]), query);
    assert k > 0 ==> Names(c)[k] == c.aliases[k - 1];
  }

  lemma BestIsFirst(compare: Compare, picks: seq<nat>, score: seq<Scored>, i: nat, reach: nat, limit: int)
    requires AreTheBest(compare, picks, score, reach, limit) && picks != []
    requires i < |score| && score[i].distance == 0
    ensures score[picks[0]].distance == 0
  {
    if i in picks {
      var k :| 0 <= k < |picks| && picks[k] == i;
      assert k > 0 ==> Better(compare, score[picks[0]], score[picks[k]]);
    } else {
      assert Better(compare, score[picks[0]], score[i]);
    }
  }
}

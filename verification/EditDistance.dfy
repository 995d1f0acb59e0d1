/** The two edit distances of the CLI: the single in-place row that ranks argv suggestions
    (packages/cli/src/cli/parser.ts) and the two rows that rank slash-command suggestions
    (packages/cli/src/commands/command-input.ts). Both are proved to return the length of a
    shortest script of single-character edits, so they agree and form a metric. */
module EditDistance {

  /** One edit of a text at a position. */
  datatype Edit =
    | Delete(at: nat)
    | Insert(at: nat, c: char)
    | Substitute(at: nat, c: char)
  {
    predicate AppliesTo(s: string) {
      match this
      case Insert(_, _) => at <= |s|
      case _ => at < |s|
    }

    function Apply(s: string): string
      requires AppliesTo(s)
    {
      match this
      case Delete(_) => s[..at] + s[at + 1..]
      case Insert(_, _) => s[..at] + [c] + s[at..]
      case Substitute(_, _) => s[..at] + [c] + s[at + 1..]
    }
  }

  /** Performing the edits of `script` one after the other turns `s` into `t`. */
  ghost predicate Turns(script: seq<Edit>, s: string, t: string)
    decreases |script|, 1
  {
    if script == [] then s == t else FirstThenRest(script, s, t)
  }

  ghost predicate FirstThenRest(script: seq<Edit>, s: string, t: string)
    requires script != []
    decreases |script|, 0
  {
    script[0].AppliesTo(s) && Turns(script[1..], script[0].Apply(s), t)
  }

  /** `d` is the length of a shortest script turning `s` into `t`. */
  ghost predicate IsShortest(d: nat, s: string, t: string) {
    && (exists script :: Turns(script, s, t) && |script| == d)
    && (forall script :: Turns(script, s, t) ==> d <= |script|)
  }

  function Min(x: nat, y: nat): nat {
    if x <= y then x else y
  }

  /** The cheapest way into a cell: insert, delete, or keep or substitute along the diagonal. */
  function Cheapest(left: nat, above: nat, diagonal: nat, same: bool): nat {
    Min(Min(left + 1, above + 1), diagonal + (if same then 0 else 1))
  }

  /** The dynamic-programming cell for the first `i` characters of `a` and the first `j` of `b`. */
  function Cell(a: string, b: string, i: nat, j: nat): nat
    requires i <= |a| && j <= |b|
    decreases i + j, 1
  {
    if i == 0 then j
    else if j == 0 then i
    else InnerCell(a, b, i, j)
  }

  function InnerCell(a: string, b: string, i: nat, j: nat): nat
    requires 0 < i <= |a| && 0 < j <= |b|
    decreases i + j, 0
  {
    Cheapest(Cell(a, b, i, j - 1), Cell(a, b, i - 1, j), Cell(a, b, i - 1, j - 1), a[i - 1] == b[j - 1])
  }

  function Distance(a: string, b: string): nat {
    Cell(a, b, |a|, |b|)
  }

  // ---------------------------------------------------------------- neighbouring cells

  lemma {:induction false} NeighboursDifferByAtMostOne(a: string, b: string, i: nat, j: nat)
    requires i <= |a| && j <= |b|
    ensures i > 0 ==> Cell(a, b, i, j) <= Cell(a, b, i - 1, j) + 1 <= Cell(a, b, i, j) + 2
    ensures j > 0 ==> Cell(a, b, i, j) <= Cell(a, b, i, j - 1) + 1 <= Cell(a, b, i, j) + 2
    decreases i + j
  {
    if i > 0 && j > 0 {
      NeighboursDifferByAtMostOne(a, b, i - 1, j);
      NeighboursDifferByAtMostOne(a, b, i, j - 1);
    }
  }

  /** Why the in-place form may take the diagonal outright when the characters agree. */
  lemma EqualCharactersTakeTheDiagonal(a: string, b: string, i: nat, j: nat)
    requires 0 < i <= |a| && 0 < j <= |b| && a[i - 1] == b[j - 1]
    ensures Cell(a, b, i, j) == Cell(a, b, i - 1, j - 1)
  {
    NeighboursDifferByAtMostOne(a, b, i - 1, j);
    NeighboursDifferByAtMostOne(a, b, i, j - 1);
  }

  /** The update of parser.ts:157-159 computes the next cell from the row being overwritten. */
  lemma InPlaceStep(a: string, b: string, i: nat, j: nat)
    requires 0 < i <= |a| && 0 < j <= |b|
    ensures Cell(a, b, i, j) ==
            if a[i - 1] == b[j - 1] then Cell(a, b, i - 1, j - 1)
            else Min(Min(Cell(a, b, i - 1, j - 1), Cell(a, b, i - 1, j)), Cell(a, b, i, j - 1)) + 1
  {
    if a[i - 1] == b[j - 1] {
      EqualCharactersTakeTheDiagonal(a, b, i, j);
    }
  }

  // ---------------------------------------------------------------- the metric laws

  lemma {:induction false} CellBounds(a: string, b: string, i: nat, j: nat)
    requires i <= |a| && j <= |b|
    ensures i - j <= Cell(a, b, i, j) && j - i <= Cell(a, b, i, j)
    ensures Cell(a, b, i, j) <= if i <= j then j else i
    decreases i + j
  {
    if i > 0 && j > 0 {
      CellBounds(a, b, i - 1, j);
      CellBounds(a, b, i, j - 1);
      CellBounds(a, b, i - 1, j - 1);
    }
  }

  lemma {:induction false} CellZero(a: string, b: string, i: nat, j: nat)
    requires i <= |a| && j <= |b|
    ensures Cell(a, b, i, j) == 0 <==> a[..i] == b[..j]
    decreases i + j
  {
    if i > 0 && j > 0 {
      CellZero(a, b, i - 1, j - 1);
      if a[i - 1] == b[j - 1] {
        EqualCharactersTakeTheDiagonal(a, b, i, j);
        assert a[..i] == a[..i - 1] + [a[i - 1]] && b[..j] == b[..j - 1] + [b[j - 1]];
        assert a[..i] == b[..j] ==> a[..i - 1] == a[..i][..i - 1] == b[..j][..i - 1] == b[..j - 1];
      } else if i == j {
        assert a[..i][i - 1] != b[..j][i - 1];
      }
    }
  }

  lemma {:induction false} CellSymmetric(a: string, b: string, i: nat, j: nat)
    requires i <= |a| && j <= |b|
    ensures Cell(a, b, i, j) == Cell(b, a, j, i)
    decreases i + j
  {
    if i > 0 && j > 0 {
      CellSymmetric(a, b, i - 1, j);
      CellSymmetric(a, b, i, j - 1);
      CellSymmetric(a, b, i - 1, j - 1);
    }
  }

  lemma {:induction false} CellTriangle(a: string, b: string, c: string, i: nat, j: nat, k: nat)
    requires i <= |a| && j <= |b| && k <= |c|
    ensures Cell(a, c, i, k) <= Cell(a, b, i, j) + Cell(b, c, j, k)
    decreases i + j + k, 1
  {
    if i == 0 || j == 0 || k == 0 {
      CellBounds(a, c, i, k);
      CellBounds(a, b, i, j);
      CellBounds(b, c, j, k);
    } else {
      NeighboursDifferByAtMostOne(a, c, i, k);
      if Cell(a, b, i, j) == Cell(a, b, i - 1, j) + 1 {
        CellTriangle(a, b, c, i - 1, j, k);
      } else if Cell(b, c, j, k) == Cell(b, c, j, k - 1) + 1 {
        CellTriangle(a, b, c, i, j, k - 1);
      } else {
        TriangleThroughTheMiddle(a, b, c, i, j, k);
      }
    }
  }

  /** The remaining case: the last character of `b` is inserted or matched, then deleted or matched. */
  lemma {:induction false} TriangleThroughTheMiddle(a: string, b: string, c: string, i: nat, j: nat, k: nat)
    requires 0 < i <= |a| && 0 < j <= |b| && 0 < k <= |c|
    requires Cell(a, b, i, j) != Cell(a, b, i - 1, j) + 1
    requires Cell(b, c, j, k) != Cell(b, c, j, k - 1) + 1
    ensures Cell(a, c, i, k) <= Cell(a, b, i, j) + Cell(b, c, j, k)
    decreases i + j + k, 0
  {
    var inserted := Cell(a, b, i, j) == Cell(a, b, i, j - 1) + 1;
    var deleted := Cell(b, c, j, k) == Cell(b, c, j - 1, k) + 1;
    if inserted && deleted {
      CellTriangle(a, b, c, i, j - 1, k);
    } else if inserted {
      CellTriangle(a, b, c, i, j - 1, k - 1);
      NeighboursDifferByAtMostOne(a, c, i, k);
    } else if deleted {
      CellTriangle(a, b, c, i - 1, j - 1, k);
      NeighboursDifferByAtMostOne(a, c, i, k);
    } else {
      CellTriangle(a, b, c, i - 1, j - 1, k - 1);
    }
  }

  /** The common distance is a metric, between the length difference and the longer length. */
  lemma DistanceIsAMetric(a: string, b: string, c: string)
    ensures Distance(a, b) == 0 <==> a == b
    ensures Distance(a, b) == Distance(b, a)
    ensures Distance(a, c) <= Distance(a, b) + Distance(b, c)
    ensures |a| - |b| <= Distance(a, b) <= if |a| <= |b| then |b| else |a|
  {
    CellZero(a, b, |a|, |b|);
    assert a[..|a|] == a && b[..|b|] == b;
    CellSymmetric(a, b, |a|, |b|);
    CellTriangle(a, b, c, |a|, |b|, |c|);
    CellBounds(a, b, |a|, |b|);
  }

  // ---------------------------------------------------------------- the distance is the shortest script

  // The states of the trace-back: the first `i` characters of `a` still to edit, then b[j..] already in place.

  lemma ThroughDelete(a: string, b: string, i: nat, j: nat, rest: seq<Edit>) returns (script: seq<Edit>)
    requires 0 < i <= |a| && j <= |b| && Turns(rest, a[..i - 1] + b[j..], b)
    ensures Turns(script, a[..i] + b[j..], b) && |script| == |rest| + 1
  {
    assert Delete(i - 1).Apply(a[..i] + b[j..]) == a[..i - 1] + b[j..];
    script := [Delete(i - 1)] + rest;
    assert script[1..] == rest;
  }

  lemma ThroughInsert(a: string, b: string, i: nat, j: nat, rest: seq<Edit>) returns (script: seq<Edit>)
    requires i <= |a| && 0 < j <= |b| && Turns(rest, a[..i] + b[j - 1..], b)
    ensures Turns(script, a[..i] + b[j..], b) && |script| == |rest| + 1
  {
    assert Insert(i, b[j - 1]).Apply(a[..i] + b[j..]) == a[..i] + b[j - 1..];
    script := [Insert(i, b[j - 1])] + rest;
    assert script[1..] == rest;
  }

  lemma ThroughSubstitute(a: string, b: string, i: nat, j: nat, rest: seq<Edit>) returns (script: seq<Edit>)
    requires 0 < i <= |a| && 0 < j <= |b| && Turns(rest, a[..i - 1] + b[j - 1..], b)
    ensures Turns(script, a[..i] + b[j..], b) && |script| == |rest| + 1
  {
    var s := a[..i] + b[j..];
    assert s[..i - 1] == a[..i - 1] && s[i..] == b[j..] && [b[j - 1]] + b[j..] == b[j - 1..];
    assert Substitute(i - 1, b[j - 1]).Apply(s) == a[..i - 1] + b[j - 1..];
    script := [Substitute(i - 1, b[j - 1])] + rest;
    assert script[1..] == rest;
  }

  lemma ThroughKeep(a: string, b: string, i: nat, j: nat)
    requires 0 < i <= |a| && 0 < j <= |b| && a[i - 1] == b[j - 1]
    ensures a[..i] + b[j..] == a[..i - 1] + b[j - 1..]
  {
  }

  datatype Move = Up | Left | Diagonal

  /** The neighbour a cell gets its value from, and that neighbour's value. */
  lemma CameFrom(a: string, b: string, i: nat, j: nat) returns (move: Move, before: nat)
    requires i <= |a| && j <= |b| && i + j > 0
    ensures move.Up? ==> i > 0 && before == Cell(a, b, i - 1, j) && Cell(a, b, i, j) == before + 1
    ensures move.Left? ==> j > 0 && before == Cell(a, b, i, j - 1) && Cell(a, b, i, j) == before + 1
    ensures move.Diagonal? ==> i > 0 && j > 0 && before == Cell(a, b, i - 1, j - 1)
    ensures move.Diagonal? ==> Cell(a, b, i, j) == before + if a[i - 1] == b[j - 1] then 0 else 1
  {
    if j == 0 || (i > 0 && Cell(a, b, i, j) == Cell(a, b, i - 1, j) + 1) {
      move, before := Up, Cell(a, b, i - 1, j);
    } else if i == 0 || Cell(a, b, i, j) == Cell(a, b, i, j - 1) + 1 {
      move, before := Left, Cell(a, b, i, j - 1);
    } else {
      move, before := Diagonal, Cell(a, b, i - 1, j - 1);
    }
  }

  /** Trace the cells back into a script of exactly the cell's length. */
  lemma {:induction false} TraceBack(a: string, b: string, i: nat, j: nat, cell: nat) returns (script: seq<Edit>)
    requires i <= |a| && j <= |b| && cell == Cell(a, b, i, j)
    ensures Turns(script, a[..i] + b[j..], b) && |script| == cell
    decreases i + j
  {
    if i + j == 0 {
      assert a[..0] + b[0..] == b;
      return [];
    }
    var move, before := CameFrom(a, b, i, j);
    match move {
      case Up =>
        var rest := TraceBack(a, b, i - 1, j, before);
        script := ThroughDelete(a, b, i, j, rest);
      case Left =>
        var rest := TraceBack(a, b, i, j - 1, before);
        script := ThroughInsert(a, b, i, j, rest);
      case Diagonal =>
        var rest := TraceBack(a, b, i - 1, j - 1, before);
        if a[i - 1] == b[j - 1] {
          ThroughKeep(a, b, i, j);
          script := rest;
        } else {
          script := ThroughSubstitute(a, b, i, j, rest);
        }
    }
  }

  lemma {:induction false} CommonPrefixCostsNothing(a: string, b: string, i: nat)
    requires i <= |a| && i <= |b| && a[..i] == b[..i]
    ensures Cell(a, b, i, i) == 0
  {
    CellZero(a, b, i, i);
  }

  lemma {:induction false} CommonSuffixAddsNothing(a: string, b: string, i: nat, j: nat)
    requires i <= |a| && j <= |b| && a[i..] == b[j..]
    ensures Distance(a, b) <= Cell(a, b, i, j)
    decreases |a| - i
  {
    if i < |a| {
      assert a[i] == a[i..][0] == b[j..][0] == b[j];
      assert a[i + 1..] == a[i..][1..] == b[j..][1..] == b[j + 1..];
      EqualCharactersTakeTheDiagonal(a, b, i + 1, j + 1);
      CommonSuffixAddsNothing(a, b, i + 1, j + 1);
    } else {
      assert |a[i..]| == 0;
    }
  }

  lemma OneEditIsAtMostOneApart(e: Edit, s: string)
    requires e.AppliesTo(s)
    ensures Distance(s, e.Apply(s)) <= 1
  {
    var t := e.Apply(s);
    var i, j := if e.Insert? then e.at else e.at + 1, if e.Delete? then e.at else e.at + 1;
    assert s[..e.at] == t[..e.at];
    CommonPrefixCostsNothing(s, t, e.at);
    assert s[i..] == t[j..];
    CommonSuffixAddsNothing(s, t, i, j);
    NeighboursDifferByAtMostOne(s, t, i, j);
  }

  lemma {:induction false} NoScriptIsShorter(script: seq<Edit>, s: string, t: string)
    requires Turns(script, s, t)
    ensures Distance(s, t) <= |script|
  {
    if script == [] {
      DistanceIsAMetric(s, t, t);
    } else {
      var u := script[0].Apply(s);
      OneEditIsAtMostOneApart(script[0], s);
      NoScriptIsShorter(script[1..], u, t);
      DistanceIsAMetric(s, u, t);
    }
  }

  lemma DistanceIsShortest(s: string, t: string)
    ensures IsShortest(Distance(s, t), s, t)
  {
    var script := TraceBack(s, t, |s|, |t|, Distance(s, t));
    assert s[..|s|] + t[|t|..] == s;
    assert Turns(script, s, t);
    forall p | Turns(p, s, t)
      ensures Distance(s, t) <= |p|
    {
      NoScriptIsShorter(p, s, t);
    }
  }

  // ---------------------------------------------------------------- the two programs

  /** parser.ts: one row overwritten in place; equal characters take the diagonal outright. */
  method SingleRow(left: string, right: string) returns (d: nat)
    ensures d == Distance(left, right)
    ensures IsShortest(d, left, right)
  {
    var previous := new nat[|right| + 1](k => k);
    var i := 1;
    while i <= |left|
      invariant 1 <= i <= |left| + 1
      invariant forall k :: 0 <= k <= |right| ==> previous[k] == Cell(left, right, i - 1, k)
    {
      var diagonal := previous[0];
      previous[0] := i;
      var j := 1;
      while j <= |right|
        invariant 1 <= j <= |right| + 1
        invariant diagonal == Cell(left, right, i - 1, j - 1)
        invariant forall k :: 0 <= k < j ==> previous[k] == Cell(left, right, i, k)
        invariant forall k :: j <= k <= |right| ==> previous[k] == Cell(left, right, i - 1, k)
      {
        var above := previous[j];
        InPlaceStep(left, right, i, j);
        previous[j] := if left[i - 1] == right[j - 1] then diagonal
                       else Min(Min(diagonal, above), previous[j - 1]) + 1;
        diagonal := above;
        j := j + 1;
      }
      i := i + 1;
    }
    d := previous[|right|];
    DistanceIsShortest(left, right);
  }

  /** command-input.ts: a fresh row per character of `left`, then spliced over the previous one. */
  method TwoRows(left: string, right: string) returns (d: nat)
    ensures d == Distance(left, right)
    ensures IsShortest(d, left, right)
  {
    var previous := seq(|right| + 1, k => k);
    var leftIndex := 1;
    while leftIndex <= |left|
      invariant 1 <= leftIndex <= |left| + 1
      invariant |previous| == |right| + 1
      invariant forall k :: 0 <= k <= |right| ==> previous[k] == Cell(left, right, leftIndex - 1, k)
    {
      var current := [leftIndex];
      var rightIndex := 1;
      while rightIndex <= |right|
        invariant 1 <= rightIndex <= |right| + 1
        invariant |current| == rightIndex
        invariant forall k :: 0 <= k < rightIndex ==> current[k] == Cell(left, right, leftIndex, k)
      {
        var change := if left[leftIndex - 1] == right[rightIndex - 1] then 0 else 1;
        current := current + [Min(Min(current[rightIndex - 1] + 1, previous[rightIndex] + 1),
                                  previous[rightIndex - 1] + change)];
        rightIndex := rightIndex + 1;
      }
      previous := current;
      leftIndex := leftIndex + 1;
    }
    d := previous[|right|];
    DistanceIsShortest(left, right);
  }
}

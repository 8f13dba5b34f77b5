/** One step of the wave-function-collapse solver: pick an uncollapsed tile of
    lowest entropy, collapse it to one candidate chosen by weight, and filter
    the candidate lists of its uncollapsed neighbours against the chosen
    type's rule (one hop only). */
module Solver {
  import opened Rules
  import opened Grid
  import opened Arith

  // ---------------------------------------------------------------------------
  // Random draws

  /** A value of `Math.random()`, a number in [0, 1), written as `num / den`. */
  datatype Draw = Draw(num: nat, den: nat)

  predicate ValidDraw(d: Draw)
  {
    d.num < d.den
  }

  /** `Math.floor(random * len)`: the index a draw selects among `len` items. */
  function Pick(d: Draw, len: nat): (k: nat)
    requires ValidDraw(d)
    ensures len > 0 ==> k < len
  {
    FloorScaledBelow(d.num, d.den, len);
    d.num * len / d.den
  }

  // ---------------------------------------------------------------------------
  // Weighted pick

  /** Every candidate has a rule. */
  predicate Typed(rules: seq<Rule>, e: seq<TileType>)
  {
    forall i :: 0 <= i < |e| ==> e[i] < |rules|
  }

  /** The total weight of the candidates in `e`. */
  function WeightSum(rules: seq<Rule>, e: seq<TileType>): nat
    requires Typed(rules, e)
  {
    if e == [] then 0 else WeightSum(rules, e[..|e| - 1]) + rules[e[|e| - 1]].weight
  }

  /** Candidate `j` is hit by draw `d`: `d * totalWeight` lies below the
      cumulative weight of candidates 0..j. */
  ghost predicate Hit(rules: seq<Rule>, e: seq<TileType>, d: Draw, j: nat)
    requires Typed(rules, e) && j < |e|
  {
    d.num * WeightSum(rules, e) < WeightSum(rules, e[..j + 1]) * d.den
  }

  /** With positive weights and a valid draw, the last candidate is always hit,
      so a weighted pick never falls off the end of a non-empty list. */
  lemma LastIsHit(rules: seq<Rule>, e: seq<TileType>, d: Draw)
    requires WellFormed(rules) && Typed(rules, e) && ValidDraw(d) && |e| > 0
    ensures Hit(rules, e, d, |e| - 1)
  {
    assert e[..|e|] == e;
    var total := WeightSum(rules, e);
    assert total > 0 by {
      assert e[..|e| - 1] + [e[|e| - 1]] == e;
    }
    MulStrict(d.num, d.den, total);
  }

  /** The weighted pick of `getWeightedTile`: total the weights, scale the draw
      by the total, and return the first candidate whose cumulative weight
      exceeds it; 0 when there is none (in particular for an empty list). */
  method WeightedTile(rules: seq<Rule>, entropy: seq<TileType>, d: Draw) returns (i: nat)
    requires Typed(rules, entropy) && ValidDraw(d)
    ensures (exists j :: 0 <= j < |entropy| && Hit(rules, entropy, d, j)) ==>
      i < |entropy| && Hit(rules, entropy, d, i) &&
      forall j :: 0 <= j < i ==> !Hit(rules, entropy, d, j)
    ensures (forall j :: 0 <= j < |entropy| ==> !Hit(rules, entropy, d, j)) ==> i == 0
    ensures WellFormed(rules) ==> (i < |entropy| <==> |entropy| > 0)
  {
    var totalWeight := 0;
    var k := 0;
    while k < |entropy|
      invariant 0 <= k <= |entropy|
      invariant totalWeight == WeightSum(rules, entropy[..k])
    {
      assert entropy[..k + 1][..k] == entropy[..k];
      totalWeight := totalWeight + rules[entropy[k]].weight;
      k := k + 1;
    }
    assert entropy[..|entropy|] == entropy;

    var cumulativeWeight := 0;
    k := 0;
    while k < |entropy|
      invariant 0 <= k <= |entropy|
      invariant cumulativeWeight == WeightSum(rules, entropy[..k])
      invariant forall j :: 0 <= j < k ==> !Hit(rules, entropy, d, j)
    {
      assert entropy[..k + 1][..k] == entropy[..k];
      cumulativeWeight := cumulativeWeight + rules[entropy[k]].weight;
      if d.num * totalWeight < cumulativeWeight * d.den {
        assert Hit(rules, entropy, d, k);
        i := k;
        return;
      }
      assert !Hit(rules, entropy, d, k);
      k := k + 1;
    }
    i := 0;
    if WellFormed(rules) && |entropy| > 0 {
      LastIsHit(rules, entropy, d);
    }
  }

  // ---------------------------------------------------------------------------
  // Lowest-entropy selection

  /** An uncollapsed tile of the map. */
  ghost predicate Open(m: Map, p: Pos)
  {
    InGrid(m, p) && !Get(m, p).collapsed
  }

  /** Row-major order: `p` is scanned before `q`. */
  predicate Before(p: Pos, q: Pos)
  {
    p.y < q.y || (p.y == q.y && p.x < q.x)
  }

  function EntropyOf(m: Map, p: Pos): nat
    requires InGrid(m, p)
  {
    |Get(m, p).entropy|
  }

  /** `c` lists, in row-major order, exactly the uncollapsed tiles scanned
      before `lim` whose candidate lists are as short as any such tile's. */
  ghost predicate LowestBefore(m: Map, c: seq<Pos>, lim: Pos)
  {
    (forall i, j :: 0 <= i < j < |c| ==> Before(c[i], c[j])) &&
    forall p :: p in c <==>
      (Open(m, p) && Before(p, lim) &&
       forall q :: Open(m, q) && Before(q, lim) ==> EntropyOf(m, p) <= EntropyOf(m, q))
  }

  /** The lowest-entropy cohort of the whole map. */
  ghost predicate IsLowestCohort(m: Map, c: seq<Pos>)
  {
    LowestBefore(m, c, Pos(0, |m|))
  }

  /** `getTileLowestEntropy`: scan the map row by row, keep the cohort of
      uncollapsed tiles with the shortest candidate list, then return the
      member the draw selects (None when the cohort is empty). */
  method LowestEntropy(m: Map, d: Draw) returns (tile: Option<Pos>, ghost cohort: seq<Pos>)
    requires ValidDraw(d)
    ensures IsLowestCohort(m, cohort)
    ensures tile == if cohort == [] then None else Some(cohort[Pick(d, |cohort|)])
    ensures tile.None? <==> AllCollapsed(m)
    ensures tile.Some? ==>
      Open(m, tile.value) &&
      forall q :: Open(m, q) ==> EntropyOf(m, tile.value) <= EntropyOf(m, q)
  {
    var lowest: seq<Pos> := [];
    var y := 0;
    while y < |m|
      invariant 0 <= y <= |m|
      invariant LowestBefore(m, lowest, Pos(0, y))
    {
      lowest := ScanRow(m, lowest, y);
      y := y + 1;
    }
    cohort := lowest;
    tile := if lowest == [] then None else Some(lowest[Pick(d, |lowest|)]);
    CohortMembers(m, cohort);
  }

  /** The inner loop of `getTileLowestEntropy`: scan row `y` left to right,
      skipping collapsed tiles, starting a new cohort at a shorter candidate
      list and joining the cohort at an equal one. */
  method ScanRow(m: Map, lowest: seq<Pos>, y: nat) returns (lowest': seq<Pos>)
    requires y < |m| && LowestBefore(m, lowest, Pos(0, y))
    ensures LowestBefore(m, lowest', Pos(0, y + 1))
  {
    lowest' := lowest;
    var x := 0;
    while x < |m[y]|
      invariant 0 <= x <= |m[y]|
      invariant LowestBefore(m, lowest', Pos(x, y))
    {
      var current := Pos(x, y);
      ghost var seen := lowest';
      ScanSeen(m, lowest', current);
      if !Get(m, current).collapsed {
        var entropy := Get(m, current).entropy;
        if |lowest'| == 0 {
          lowest' := lowest' + [current];
        } else if |entropy| < |Get(m, lowest'[0]).entropy| {
          lowest' := [current];
        } else if |Get(m, lowest'[0]).entropy| == |entropy| {
          lowest' := lowest' + [current];
        }
      }
      ScanStep(m, seen, lowest', x, y);
      x := x + 1;
    }
    RowDone(m, lowest', y);
  }

  /** The cohort is empty exactly when every tile is collapsed, and each member
      is an uncollapsed tile no other uncollapsed tile undercuts. */
  lemma CohortMembers(m: Map, c: seq<Pos>)
    requires IsLowestCohort(m, c)
    ensures c == [] <==> AllCollapsed(m)
    ensures forall k :: 0 <= k < |c| ==>
      Open(m, c[k]) && forall q :: Open(m, q) ==> EntropyOf(m, c[k]) <= EntropyOf(m, q)
  {
    if !AllCollapsed(m) {
      var p :| InGrid(m, p) && !Get(m, p).collapsed;
      LowestExists(m, c, Pos(0, |m|), p);
    }
    if c != [] {
      assert c[0] in c;
    }
    forall k, q | 0 <= k < |c| && Open(m, q)
      ensures Open(m, c[k]) && EntropyOf(m, c[k]) <= EntropyOf(m, q)
    {
      assert c[k] in c;
      assert Before(q, Pos(0, |m|));
    }
  }

  /** A scan that has passed an uncollapsed tile has a non-empty cohort. */
  lemma LowestExists(m: Map, c: seq<Pos>, lim: Pos, p: Pos)
    requires LowestBefore(m, c, lim) && Open(m, p) && Before(p, lim)
    ensures c != []
  {
    var best := p;
    // pick an open tile before `lim` of least entropy
    while exists q :: Open(m, q) && Before(q, lim) && EntropyOf(m, q) < EntropyOf(m, best)
      invariant Open(m, best) && Before(best, lim)
      decreases EntropyOf(m, best)
    {
      var q :| Open(m, q) && Before(q, lim) && EntropyOf(m, q) < EntropyOf(m, best);
      best := q;
    }
    assert best in c;
  }

  /** The cohort after the scan has looked at `current`. */
  function ScanNext(m: Map, lowest: seq<Pos>, current: Pos): seq<Pos>
    requires InGrid(m, current) && forall p :: p in lowest ==> InGrid(m, p)
  {
    if Get(m, current).collapsed then lowest
    else if |lowest| == 0 then lowest + [current]
    else if EntropyOf(m, current) < EntropyOf(m, lowest[0]) then [current]
    else if EntropyOf(m, lowest[0]) == EntropyOf(m, current) then lowest + [current]
    else lowest
  }

  /** One step of the scan keeps `lowest` the cohort of the tiles seen so far,
      now including `current`. */
  lemma ScanSeen(m: Map, lowest: seq<Pos>, current: Pos)
    requires LowestBefore(m, lowest, current)
    ensures forall p :: p in lowest ==> InGrid(m, p)
  {
  }

  lemma ScanStep(m: Map, lowest: seq<Pos>, next: seq<Pos>, x: nat, y: nat)
    requires InGrid(m, Pos(x, y)) && LowestBefore(m, lowest, Pos(x, y))
    requires forall p :: p in lowest ==> InGrid(m, p)
    requires next == ScanNext(m, lowest, Pos(x, y))
    ensures LowestBefore(m, next, Pos(x + 1, y))
  {
    var current := Pos(x, y);
    if lowest != [] {
      assert lowest[0] in lowest;
    }
    if Get(m, current).collapsed {
      ScanSkip(m, lowest, current);
    } else if |lowest| == 0 {
      ScanFirst(m, lowest, current);
    } else if EntropyOf(m, current) < EntropyOf(m, lowest[0]) {
      ScanLower(m, lowest, current);
    } else if EntropyOf(m, lowest[0]) == EntropyOf(m, current) {
      ScanTie(m, lowest, current);
    } else {
      ScanHigher(m, lowest, current);
    }
  }

  // One step of the scan, one lemma per branch: each keeps `lowest` the
  // cohort of the tiles scanned so far, now including `current`.

  lemma ScanSkip(m: Map, lowest: seq<Pos>, current: Pos)
    requires InGrid(m, current) && Get(m, current).collapsed
    requires LowestBefore(m, lowest, current)
    ensures LowestBefore(m, lowest, Pos(current.x + 1, current.y))
  {
    var next := Pos(current.x + 1, current.y);
    assert forall q :: Before(q, next) <==> Before(q, current) || q == current;
  }

  lemma ScanFirst(m: Map, lowest: seq<Pos>, current: Pos)
    requires Open(m, current) && lowest == []
    requires LowestBefore(m, lowest, current)
    ensures LowestBefore(m, lowest + [current], Pos(current.x + 1, current.y))
  {
    var next := Pos(current.x + 1, current.y);
    assert forall q :: Before(q, next) <==> Before(q, current) || q == current;
    forall q | Open(m, q) && Before(q, current) ensures false {
      LowestExists(m, lowest, current, q);
    }
  }

  lemma ScanLower(m: Map, lowest: seq<Pos>, current: Pos)
    requires Open(m, current) && lowest != []
    requires LowestBefore(m, lowest, current)
    requires InGrid(m, lowest[0]) && EntropyOf(m, current) < EntropyOf(m, lowest[0])
    ensures LowestBefore(m, [current], Pos(current.x + 1, current.y))
  {
    var next := Pos(current.x + 1, current.y);
    assert forall q :: Before(q, next) <==> Before(q, current) || q == current;
    assert lowest[0] in lowest;
  }

  lemma ScanTie(m: Map, lowest: seq<Pos>, current: Pos)
    requires Open(m, current) && lowest != []
    requires LowestBefore(m, lowest, current)
    requires InGrid(m, lowest[0]) && EntropyOf(m, current) == EntropyOf(m, lowest[0])
    ensures LowestBefore(m, lowest + [current], Pos(current.x + 1, current.y))
  {
    var next := Pos(current.x + 1, current.y);
    assert forall q :: Before(q, next) <==> Before(q, current) || q == current;
    assert lowest[0] in lowest;
    assert forall p :: p in lowest ==> EntropyOf(m, p) == EntropyOf(m, lowest[0]);
  }

  lemma ScanHigher(m: Map, lowest: seq<Pos>, current: Pos)
    requires Open(m, current) && lowest != []
    requires LowestBefore(m, lowest, current)
    requires InGrid(m, lowest[0]) && EntropyOf(m, current) > EntropyOf(m, lowest[0])
    ensures LowestBefore(m, lowest, Pos(current.x + 1, current.y))
  {
    var next := Pos(current.x + 1, current.y);
    assert forall q :: Before(q, next) <==> Before(q, current) || q == current;
    assert lowest[0] in lowest;
    assert forall p :: p in lowest ==> EntropyOf(m, p) == EntropyOf(m, lowest[0]);
  }

  /** Finishing a row: being before the end of row `y` is being before row `y + 1`. */
  lemma RowDone(m: Map, lowest: seq<Pos>, y: nat)
    requires y < |m| && LowestBefore(m, lowest, Pos(|m[y]|, y))
    ensures LowestBefore(m, lowest, Pos(0, y + 1))
  {
    assert forall q :: InGrid(m, q) ==> (Before(q, Pos(0, y + 1)) <==> Before(q, Pos(|m[y]|, y)));
  }
}

/** The generation step of the tile-map generator (the body of `iteration`):
    select, collapse, and filter the neighbours one hop out. */
module Step {
  import opened Rules
  import opened Grid
  import opened Solver

  // ---------------------------------------------------------------------------
  // Propagation

  /** `entropy.filter(value => allowed.includes(value))`: the candidates that
      are allowed, in their original order. */
  function Filter(entropy: seq<TileType>, allowed: seq<TileType>): (r: seq<TileType>)
    ensures forall t :: t in r <==> t in entropy && t in allowed
    ensures |r| <= |entropy|
    ensures (forall t :: t in entropy ==> t in allowed) ==> r == entropy
  {
    if entropy == [] then []
    else (if entropy[0] in allowed then [entropy[0]] else []) + Filter(entropy[1..], allowed)
  }

  /** Filtering keeps only candidates that were there, so they still have rules. */
  lemma {:induction false} FilterTyped(rules: seq<Rule>, entropy: seq<TileType>, allowed: seq<TileType>)
    requires Typed(rules, entropy)
    ensures Typed(rules, Filter(entropy, allowed))
  {
    if entropy != [] {
      FilterTyped(rules, entropy[1..], allowed);
    }
  }

  /** Every candidate of `c` has a rule, and if `c` is collapsed it holds exactly one. */
  ghost predicate TileOk(rules: seq<Rule>, c: Tile)
  {
    Typed(rules, c.entropy) && (c.collapsed ==> |c.entropy| == 1)
  }

  /** A linked map whose every tile is `TileOk`. */
  ghost predicate GridOk(m: Map, rules: seq<Rule>)
  {
    Linked(m) && forall p :: InGrid(m, p) ==> TileOk(rules, Get(m, p))
  }

  /** One of the four neighbour updates: if `n` is a tile that is not yet
      collapsed, filter its candidates against `allowed`. */
  function Propagate(m: Map, n: Option<Pos>, allowed: seq<TileType>): (m': Map)
    ensures |m'| == |m| && forall y :: 0 <= y < |m| ==> |m'[y]| == |m[y]|
    ensures forall q :: InGrid(m, q) ==>
      Get(m', q) == if n == Some(q) && !Get(m, q).collapsed
                    then Get(m, q).(entropy := Filter(Get(m, q).entropy, allowed))
                    else Get(m, q)
  {
    if n.Some? && InGrid(m, n.value) && !Get(m, n.value).collapsed
    then SetTile(m, n.value, Get(m, n.value).(entropy := Filter(Get(m, n.value).entropy, allowed)))
    else m
  }

  /** The map after tile `t` is collapsed to `v`: the tile itself is set to
      `[v]` and marked collapsed, then its north, east, south and west
      neighbours are filtered in that order against `v`'s rule. */
  function Collapse(m: Map, t: Pos, v: TileType, rules: seq<Rule>): Map
    requires InGrid(m, t) && v < |rules|
  {
    var c := Get(m, t);
    var r := rules[v];
    var m1 := SetTile(m, t, c.(entropy := [v], collapsed := true));
    Propagate(Propagate(Propagate(Propagate(m1, c.north, r.north), c.east, r.east),
                        c.south, r.south), c.west, r.west)
  }

  /** The direction in which `q` lies one step from `t`, if it does. */
  function DirectionTo(t: Pos, q: Pos): Option<Dir>
  {
    if q.x == t.x && q.y + 1 == t.y then Some(North)
    else if q.x == t.x + 1 && q.y == t.y then Some(East)
    else if q.x == t.x && q.y == t.y + 1 then Some(South)
    else if q.x + 1 == t.x && q.y == t.y then Some(West)
    else None
  }

  /** Tile `q` as a step that collapses `t` to `v` should leave it, described
      tile by tile: `t` becomes `[v]`, an uncollapsed tile next to `t` keeps
      the candidates `v` allows in that direction, every other tile stays. */
  function AfterCollapse(m: Map, t: Pos, v: TileType, rules: seq<Rule>, q: Pos): Tile
    requires InGrid(m, q) && v < |rules|
  {
    var c := Get(m, q);
    if q == t then c.(entropy := [v], collapsed := true)
    else match DirectionTo(t, q)
      case None => c
      case Some(d) => if c.collapsed then c else c.(entropy := Filter(c.entropy, Allowed(rules[v], d)))
  }

  /** Each tile, as a step leaves it, keeps its position and links and stays `TileOk`. */
  lemma AfterCollapseOk(m: Map, t: Pos, v: TileType, rules: seq<Rule>, q: Pos)
    requires InGrid(m, q) && v < |rules| && TileOk(rules, Get(m, q))
    ensures SameFrame(Get(m, q), AfterCollapse(m, t, v, rules, q))
    ensures TileOk(rules, AfterCollapse(m, t, v, rules, q))
  {
    var c := Get(m, q);
    if q != t {
      match DirectionTo(t, q)
      case None =>
      case Some(d) =>
        FilterTyped(rules, c.entropy, Allowed(rules[v], d));
    }
  }

  /** The links of tile `t` point one step away in each direction. */
  ghost predicate LinkedAt(m: Map, t: Pos)
    requires InGrid(m, t)
  {
    var c := Get(m, t);
    c.north == Adjacent(|m|, t, North) && c.east == Adjacent(|m|, t, East) &&
    c.south == Adjacent(|m|, t, South) && c.west == Adjacent(|m|, t, West)
  }

  lemma LinkedHasLinkedAt(m: Map, t: Pos)
    requires Linked(m) && InGrid(m, t)
    ensures LinkedAt(m, t) && forall q :: InGrid(m, q) ==> |m[q.y]| == |m|
  {
    LinkFollowsPosition(m, t, North);
    LinkFollowsPosition(m, t, East);
    LinkFollowsPosition(m, t, South);
    LinkFollowsPosition(m, t, West);
  }

  /** `q` lies one step from `t` in direction `d` exactly when the position
      next to `t` in direction `d` is `q`. */
  lemma DirectionAdjacent(size: nat, t: Pos, q: Pos, d: Dir)
    requires q.x < size && q.y < size
    ensures Adjacent(size, t, d) == Some(q) <==> DirectionTo(t, q) == Some(d)
  {
    match d
    case North =>
    case East =>
    case South =>
    case West =>
  }

  /** The sequential composition of the source's updates meets the tile-by-tile
      description at tile `q`. */
  lemma CollapseAt(m: Map, t: Pos, v: TileType, rules: seq<Rule>, q: Pos)
    requires InGrid(m, t) && InGrid(m, q) && v < |rules|
    requires |m[q.y]| == |m| && LinkedAt(m, t)
    ensures InGrid(Collapse(m, t, v, rules), q)
    ensures Get(Collapse(m, t, v, rules), q) == AfterCollapse(m, t, v, rules, q)
  {
    var c := Get(m, t);
    var r := rules[v];
    var m1 := SetTile(m, t, c.(entropy := [v], collapsed := true));
    var m2 := Propagate(m1, c.north, r.north);
    var m3 := Propagate(m2, c.east, r.east);
    var m4 := Propagate(m3, c.south, r.south);
    var m5 := Propagate(m4, c.west, r.west);
    assert Collapse(m, t, v, rules) == m5;
    assert InGrid(m1, q) && InGrid(m2, q) && InGrid(m3, q) && InGrid(m4, q);
    DirectionAdjacent(|m|, t, q, North);
    DirectionAdjacent(|m|, t, q, East);
    DirectionAdjacent(|m|, t, q, South);
    DirectionAdjacent(|m|, t, q, West);
  }

  /** The sequential composition of the source's updates meets the tile-by-tile
      description: the map keeps its shape and every tile is as `AfterCollapse`
      says. */
  lemma CollapseTiles(m: Map, t: Pos, v: TileType, rules: seq<Rule>)
    requires Linked(m) && InGrid(m, t) && v < |rules|
    ensures var m' := Collapse(m, t, v, rules);
      |m'| == |m| && (forall y :: 0 <= y < |m| ==> |m'[y]| == |m[y]|) &&
      forall q :: InGrid(m, q) ==> Get(m', q) == AfterCollapse(m, t, v, rules, q)
  {
    LinkedHasLinkedAt(m, t);
    forall q | InGrid(m, q)
      ensures Get(Collapse(m, t, v, rules), q) == AfterCollapse(m, t, v, rules, q)
    {
      CollapseAt(m, t, v, rules, q);
    }
  }

  /** Collapsing keeps the map well formed: links and positions are unchanged,
      filtered lists still name only tile types with rules, and a collapsed
      tile has exactly one candidate. */
  lemma CollapseKeepsGrid(m: Map, t: Pos, v: TileType, rules: seq<Rule>)
    requires GridOk(m, rules) && InGrid(m, t) && v < |rules|
    ensures GridOk(Collapse(m, t, v, rules), rules)
  {
    var m' := Collapse(m, t, v, rules);
    CollapseTiles(m, t, v, rules);
    forall q | InGrid(m, q)
      ensures SameFrame(Get(m, q), Get(m', q)) && TileOk(rules, Get(m', q))
    {
      AfterCollapseOk(m, t, v, rules, q);
    }
    LinkedKept(m, m');
  }

  /** Candidate lists only ever shrink: every tile's new list is drawn from its
      old one and is no longer, provided `v` was a candidate of `t`. */
  lemma CollapseShrinks(m: Map, t: Pos, v: TileType, rules: seq<Rule>)
    requires Linked(m) && InGrid(m, t) && v < |rules| && v in Get(m, t).entropy
    ensures forall q :: InGrid(m, q) ==>
      var e, e' := Get(m, q).entropy, Get(Collapse(m, t, v, rules), q).entropy;
      |e'| <= |e| && forall u :: u in e' ==> u in e
  {
    CollapseTiles(m, t, v, rules);
  }

  /** Locality: only `t` and its uncollapsed cardinal neighbours change; a
      collapsed tile never changes, and no tile is un-collapsed. */
  lemma CollapseIsLocal(m: Map, t: Pos, v: TileType, rules: seq<Rule>)
    requires Linked(m) && InGrid(m, t) && !Get(m, t).collapsed && v < |rules|
    ensures forall q :: InGrid(m, q) && q != t && DirectionTo(t, q).None? ==>
      Get(Collapse(m, t, v, rules), q) == Get(m, q)
    ensures forall q :: InGrid(m, q) && Get(m, q).collapsed ==>
      Get(Collapse(m, t, v, rules), q) == Get(m, q)
    ensures forall q :: InGrid(m, q) ==>
      (Get(Collapse(m, t, v, rules), q).collapsed <==> Get(m, q).collapsed || q == t)
  {
    CollapseTiles(m, t, v, rules);
  }

  /** Propagation leaves the number of collapsed tiles alone. */
  lemma PropagateCount(m: Map, n: Option<Pos>, allowed: seq<TileType>)
    ensures CountCollapsed(Propagate(m, n, allowed)) == CountCollapsed(m)
    ensures Size(Propagate(m, n, allowed)) == Size(m)
  {
    if n.Some? && InGrid(m, n.value) && !Get(m, n.value).collapsed {
      CountUpdate(m, n.value, Get(m, n.value).(entropy := Filter(Get(m, n.value).entropy, allowed)));
    }
  }

  /** A step that collapses an uncollapsed tile raises the number of collapsed
      tiles by exactly one and keeps the number of tiles. */
  lemma CollapseCount(m: Map, t: Pos, v: TileType, rules: seq<Rule>)
    requires InGrid(m, t) && !Get(m, t).collapsed && v < |rules|
    ensures CountCollapsed(Collapse(m, t, v, rules)) == CountCollapsed(m) + 1
    ensures Size(Collapse(m, t, v, rules)) == Size(m)
  {
    var c := Get(m, t);
    var r := rules[v];
    var m1 := SetTile(m, t, c.(entropy := [v], collapsed := true));
    CountUpdate(m, t, c.(entropy := [v], collapsed := true));
    var m2 := Propagate(m1, c.north, r.north);
    var m3 := Propagate(m2, c.east, r.east);
    var m4 := Propagate(m3, c.south, r.south);
    PropagateCount(m1, c.north, r.north);
    PropagateCount(m2, c.east, r.east);
    PropagateCount(m3, c.south, r.south);
    PropagateCount(m4, c.west, r.west);
  }

  /** Every uncollapsed tile still has `u` among its candidates. */
  ghost predicate OpenTilesAllow(m: Map, u: TileType)
  {
    forall p :: Open(m, p) ==> u in Get(m, p).entropy
  }

  /** A tile type allowed next to everything survives every filtering, so the
      uncollapsed tiles that hold it keep holding it. */
  lemma CollapseKeepsAllowedEverywhere(m: Map, t: Pos, v: TileType, rules: seq<Rule>, u: TileType)
    requires Linked(m) && InGrid(m, t) && v < |rules|
    requires AllowedEverywhere(rules, u) && OpenTilesAllow(m, u)
    ensures OpenTilesAllow(Collapse(m, t, v, rules), u)
  {
    var m' := Collapse(m, t, v, rules);
    CollapseTiles(m, t, v, rules);
    forall p | Open(m', p) ensures u in Get(m', p).entropy {
      CollapseAt(m, t, v, rules, p);
      assert InGrid(m, p) && Open(m, p);
      match DirectionTo(t, p)
      case None =>
      case Some(d) =>
        assert u in Allowed(rules[v], d);
    }
  }

  /** With a symmetric rule table, every candidate an uncollapsed neighbour
      keeps would in turn allow the collapsed tile's type back in the opposite
      direction. */
  lemma CollapseConsistent(m: Map, t: Pos, v: TileType, rules: seq<Rule>, q: Pos)
    requires GridOk(m, rules) && InGrid(m, t) && v < |rules| && Symmetric(rules)
    requires InGrid(m, q) && !Get(m, q).collapsed && DirectionTo(t, q).Some?
    ensures forall w :: w in Get(Collapse(m, t, v, rules), q).entropy ==>
      w < |rules| && v in Allowed(rules[w], Opposite(DirectionTo(t, q).value))
  {
    var d := DirectionTo(t, q).value;
    var before := Get(m, q);
    assert TileOk(rules, before);
    FilterConsistent(rules, before.entropy, v, d);
    CollapseAt(m, t, v, rules, q);
    assert AfterCollapse(m, t, v, rules, q).entropy == Filter(before.entropy, Allowed(rules[v], d));
  }

  /** Filtering typed candidates by `v`'s rule in direction `d` keeps only
      types that allow `v` back in the opposite direction. */
  lemma FilterConsistent(rules: seq<Rule>, entropy: seq<TileType>, v: TileType, d: Dir)
    requires Typed(rules, entropy) && v < |rules| && Symmetric(rules)
    ensures forall w :: w in Filter(entropy, Allowed(rules[v], d)) ==>
      w < |rules| && v in Allowed(rules[w], Opposite(d))
  {
    forall w | w in Filter(entropy, Allowed(rules[v], d))
      ensures w < |rules| && v in Allowed(rules[w], Opposite(d))
    {
      var i :| 0 <= i < |entropy| && entropy[i] == w;
      assert w in Allowed(rules[v], d);
    }
  }

  /** While some initial type is allowed everywhere, no uncollapsed tile runs
      out of candidates. */
  lemma OpenTileNotEmpty(m: Map, rules: seq<Rule>, t: Pos)
    requires Open(m, t)
    requires forall u :: u in InitialEntropy && AllowedEverywhere(rules, u) ==> OpenTilesAllow(m, u)
    ensures (exists u :: u in InitialEntropy && AllowedEverywhere(rules, u)) ==> |Get(m, t).entropy| > 0
  {
    if exists u :: u in InitialEntropy && AllowedEverywhere(rules, u) {
      var u :| u in InitialEntropy && AllowedEverywhere(rules, u);
      assert u in Get(m, t).entropy;
    }
  }

  // ---------------------------------------------------------------------------
  // The generator

  /** What every generation step keeps: a well-formed rule table, a well-formed
      map, and each initial type that is allowed everywhere still a candidate of
      every uncollapsed tile. */
  ghost predicate ValidMap(m: Map, rules: seq<Rule>)
  {
    WellFormed(rules) && GridOk(m, rules) &&
    forall u :: u in InitialEntropy && AllowedEverywhere(rules, u) ==> OpenTilesAllow(m, u)
  }

  /** A step from a valid map, at an uncollapsed tile, to a candidate of that
      tile, gives a valid map with one more collapsed tile. */
  lemma CollapseKeepsValid(m: Map, t: Pos, v: TileType, rules: seq<Rule>)
    requires ValidMap(m, rules) && Open(m, t) && v < |rules|
    ensures ValidMap(Collapse(m, t, v, rules), rules)
    ensures CountCollapsed(Collapse(m, t, v, rules)) == CountCollapsed(m) + 1
    ensures Size(Collapse(m, t, v, rules)) == Size(m)
  {
    CollapseKeepsGrid(m, t, v, rules);
    forall u | u in InitialEntropy && AllowedEverywhere(rules, u)
      ensures OpenTilesAllow(Collapse(m, t, v, rules), u)
    {
      CollapseKeepsAllowedEverywhere(m, t, v, rules, u);
    }
    CollapseCount(m, t, v, rules);
  }

  /** The links of tile `t` lead to tiles of the map. */
  ghost predicate NeighboursInGrid(m: Map, t: Pos)
    requires InGrid(m, t)
  {
    var c := Get(m, t);
    (c.north.Some? ==> InGrid(m, c.north.value)) && (c.east.Some? ==> InGrid(m, c.east.value)) &&
    (c.south.Some? ==> InGrid(m, c.south.value)) && (c.west.Some? ==> InGrid(m, c.west.value))
  }

  lemma LinkedNeighbours(m: Map, t: Pos)
    requires Linked(m) && InGrid(m, t)
    ensures NeighboursInGrid(m, t)
  {
    LinksAreMutual(m, t, North);
    LinksAreMutual(m, t, East);
    LinksAreMutual(m, t, South);
    LinksAreMutual(m, t, West);
  }

  datatype Outcome = Done | Collapsed(at: Pos, chosen: TileType) | Contradiction(at: Pos)

  /** The state of one generation run: the rule table and the map it fills in.
      The run itself (one `Iteration` per timer tick until `Done`) is driven
      from outside. */
  class Generator {
    const rules: seq<Rule>
    var tiles: Map

    ghost predicate Valid()
      reads this
    {
      ValidMap(tiles, rules)
    }

    /** The number of tiles still to be collapsed. */
    ghost function Unresolved(): nat
      reads this
    {
      if CountCollapsed(tiles) <= Size(tiles) then Size(tiles) - CountCollapsed(tiles) else 0
    }

    /** `startGeneration`'s set-up: a fresh empty map of side `size`. */
    constructor (size: nat, rules: seq<Rule>)
      requires WellFormed(rules)
      ensures Valid() && this.rules == rules && IsEmptyMap(tiles, size)
      ensures Unresolved() == size * size
    {
      var m := GenerateEmptyMap(size);
      this.rules := rules;
      tiles := m;
      new;
      assert forall i :: 0 <= i < |InitialEntropy| ==> InitialEntropy[i] in InitialEntropy;
      forall p | InGrid(tiles, p) ensures TileOk(rules, Get(tiles, p)) {
        assert Get(tiles, p).entropy == InitialEntropy;
      }
      CountBound(tiles);
      SquareSize(tiles);
      assert CountCollapsed(tiles) == 0 by {
        ZeroCount(tiles);
      }
    }

    /** One line of the neighbour check in `iteration`: if there is a
        neighbour and it is not collapsed, keep only its candidates that
        `allowed` lists. */
    method FilterNeighbour(n: Option<Pos>, allowed: seq<TileType>)
      requires n.Some? ==> InGrid(tiles, n.value)
      modifies this
      ensures tiles == Propagate(old(tiles), n, allowed)
    {
      if n.Some? && !Get(tiles, n.value).collapsed {
        var nb := Get(tiles, n.value);
        tiles := SetTile(tiles, n.value, nb.(entropy := Filter(nb.entropy, allowed)));
      }
    }

    /** The in-place part of `iteration`: tile `t` gets the single candidate
        `v` and is marked collapsed, then each linked neighbour that is not
        collapsed has its candidates filtered against `v`'s rule for that
        direction, north, east, south, west. */
    method CollapseTile(t: Pos, v: TileType)
      requires InGrid(tiles, t) && NeighboursInGrid(tiles, t) && v < |rules|
      modifies this
      ensures tiles == Collapse(old(tiles), t, v, rules)
    {
      var c := Get(tiles, t);
      tiles := SetTile(tiles, t, c.(entropy := [v], collapsed := true));

      var tileType := Get(tiles, t).entropy[0];
      var r := rules[tileType];
      FilterNeighbour(c.north, r.north);
      FilterNeighbour(c.east, r.east);
      FilterNeighbour(c.south, r.south);
      FilterNeighbour(c.west, r.west);
    }

    /** One call of `iteration`: select the lowest-entropy tile (`select` stands
        for the tie-breaking random number), collapse it by weight (`weigh`
        stands for the weighted draw) and filter its uncollapsed neighbours. */
    method Iteration(select: Draw, weigh: Draw) returns (out: Outcome)
      requires Valid() && ValidDraw(select) && ValidDraw(weigh)
      modifies this
      ensures Valid()
      ensures out.Done? <==> AllCollapsed(old(tiles))
      ensures !out.Collapsed? ==> tiles == old(tiles)
      ensures out.Contradiction? ==>
        Open(old(tiles), out.at) && Get(old(tiles), out.at).entropy == []
      ensures out.Collapsed? ==>
        Open(old(tiles), out.at) &&
        (forall q :: Open(old(tiles), q) ==> EntropyOf(old(tiles), out.at) <= EntropyOf(old(tiles), q)) &&
        out.chosen in Get(old(tiles), out.at).entropy &&
        tiles == Collapse(old(tiles), out.at, out.chosen, rules)
      ensures out.Collapsed? ==> Unresolved() + 1 == old(Unresolved())
      ensures out.Done? <==> old(Unresolved()) == 0
      ensures (exists u :: u in InitialEntropy && AllowedEverywhere(rules, u)) ==> !out.Contradiction?
      ensures out.Collapsed? ==>
        exists c :: IsLowestCohort(old(tiles), c) && c != [] && out.at == c[Pick(select, |c|)]
      ensures out.Collapsed? ==>
        InGrid(old(tiles), out.at) &&
        var e := Get(old(tiles), out.at).entropy;
        Typed(rules, e) &&
        exists i :: 0 <= i < |e| && out.chosen == e[i] && Hit(rules, e, weigh, i) &&
          forall j :: 0 <= j < i ==> !Hit(rules, e, weigh, j)
    {
      CountBound(tiles);
      var tile;
      ghost var cohort;
      tile, cohort := LowestEntropy(tiles, select);
      if tile == None {
        out := Done;
        return;
      }
      var t := tile.value;
      var c := Get(tiles, t);
      OpenTileNotEmpty(tiles, rules, t);
      var i := WeightedTile(rules, c.entropy, weigh);
      if i >= |c.entropy| {
        out := Contradiction(t);
        return;
      }
      LastIsHit(rules, c.entropy, weigh);
      var randomTileValue := c.entropy[i];
      ghost var before := tiles;
      LinkedNeighbours(tiles, t);
      CollapseTile(t, randomTileValue);
      out := Collapsed(t, randomTileValue);
      CollapseKeepsValid(before, t, randomTileValue, rules);
      CountBound(tiles);
      assert IsLowestCohort(before, cohort) && cohort != [] && t == cohort[Pick(select, |cohort|)];
      assert Hit(rules, c.entropy, weigh, i);
    }
  }

  lemma {:induction false} ZeroCount(m: Map)
    requires forall p :: InGrid(m, p) ==> !Get(m, p).collapsed
    ensures CountCollapsed(m) == 0
  {
    if m != [] {
      var k := |m| - 1;
      assert forall p :: InGrid(m[..k], p) ==> InGrid(m, p) && Get(m[..k], p) == Get(m, p);
      ZeroCount(m[..k]);
      ZeroRow(m[k], k, m);
    }
  }

  lemma {:induction false} ZeroRow(row: seq<Tile>, k: nat, m: Map)
    requires k < |m| && |row| <= |m[k]| && forall i :: 0 <= i < |row| ==> row[i] == m[k][i]
    requires forall p :: InGrid(m, p) ==> !Get(m, p).collapsed
    ensures CountRow(row) == 0
  {
    if row != [] {
      ZeroRow(row[..|row| - 1], k, m);
      assert InGrid(m, Pos(|row| - 1, k));
    }
  }
}

/** The rule table of the tile-map generator: tile types, per-type weights and,
    for each of the four cardinal directions, the tile types a neighbour in
    that direction may take once a tile of this type is chosen. */
module Rules {

  /** Tile types are small naturals used directly as positions in the rule table. */
  type TileType = nat

  const Land: TileType := 0
  const Coast: TileType := 1
  const Sea: TileType := 2

  /** The candidate list every tile starts with: land, coast, sea. */
  const InitialEntropy: seq<TileType> := [Land, Coast, Sea]

  datatype Dir = North | East | South | West

  /** One rule per tile type. The texture coordinates of the source are render
      keys that the solver never reads, so they are not part of the model. */
  datatype Rule = Rule(tileType: TileType, weight: nat,
                       north: seq<TileType>, east: seq<TileType>,
                       south: seq<TileType>, west: seq<TileType>)

  /** The allowed-neighbour list of a rule in direction `d`. */
  function Allowed(r: Rule, d: Dir): seq<TileType>
  {
    match d
    case North => r.north
    case East => r.east
    case South => r.south
    case West => r.west
  }

  function Opposite(d: Dir): Dir
  {
    match d
    case North => South
    case South => North
    case East => West
    case West => East
  }

  /** A usable rule table: rule `t` describes type `t`, weights are positive,
      every listed neighbour type has a rule, and so does every type of the
      initial candidate list. */
  ghost predicate WellFormed(rules: seq<Rule>)
  {
    (forall t :: t in InitialEntropy ==> t < |rules|) &&
    forall t :: 0 <= t < |rules| ==>
      rules[t].tileType == t && rules[t].weight > 0 &&
      forall d: Dir, u :: u in Allowed(rules[t], d) ==> u < |rules|
  }

  /** Adjacency is declared symmetrically: `a` allows `b` in direction `d`
      exactly when `b` allows `a` in the opposite direction. */
  ghost predicate Symmetric(rules: seq<Rule>)
  {
    forall a, b, d: Dir :: 0 <= a < |rules| && 0 <= b < |rules| ==>
      (b in Allowed(rules[a], d) <==> a in Allowed(rules[b], Opposite(d)))
  }

  /** Tile type `u` is allowed next to every tile type in every direction. */
  ghost predicate AllowedEverywhere(rules: seq<Rule>, u: TileType)
  {
    forall t, d: Dir :: 0 <= t < |rules| ==> u in Allowed(rules[t], d)
  }

  const LandNeighbours: seq<TileType> := [Land, Coast]
  const CoastNeighbours: seq<TileType> := [Coast, Land, Sea]
  const SeaNeighbours: seq<TileType> := [Sea, Coast]

  /** The table the generator ships with: every weight is 1, land borders land
      or coast, sea borders sea or coast, coast borders anything. */
  const ShippedRules: seq<Rule> := [
    Rule(Land, 1, LandNeighbours, LandNeighbours, LandNeighbours, LandNeighbours),
    Rule(Coast, 1, CoastNeighbours, CoastNeighbours, CoastNeighbours, CoastNeighbours),
    Rule(Sea, 1, SeaNeighbours, SeaNeighbours, SeaNeighbours, SeaNeighbours)
  ]

  /** The same neighbour list is used in all four directions of each shipped rule. */
  lemma ShippedAllowed(t: TileType, d: Dir)
    requires t < |ShippedRules|
    ensures Allowed(ShippedRules[t], d) ==
      if t == Land then LandNeighbours else if t == Coast then CoastNeighbours else SeaNeighbours
  {
    match d
    case North =>
    case East =>
    case South =>
    case West =>
  }

  lemma ShippedWellFormed()
    ensures WellFormed(ShippedRules)
    ensures forall t :: 0 <= t < |ShippedRules| ==> ShippedRules[t].weight == 1
  {
    forall t, d: Dir, u | 0 <= t < |ShippedRules| && u in Allowed(ShippedRules[t], d)
      ensures u < |ShippedRules|
    {
      ShippedAllowed(t, d);
    }
  }

  lemma ShippedSymmetric()
    ensures Symmetric(ShippedRules)
  {
    forall a, b, d: Dir | 0 <= a < |ShippedRules| && 0 <= b < |ShippedRules|
      ensures b in Allowed(ShippedRules[a], d) <==> a in Allowed(ShippedRules[b], Opposite(d))
    {
      ShippedAllowed(a, d);
      ShippedAllowed(b, Opposite(d));
    }
  }

  /** Coast may border anything, so filtering against any shipped list keeps it. */
  lemma ShippedCoastEverywhere()
    ensures AllowedEverywhere(ShippedRules, Coast)
  {
    forall t, d: Dir | 0 <= t < |ShippedRules|
      ensures Coast in Allowed(ShippedRules[t], d)
    {
      ShippedAllowed(t, d);
    }
  }
}

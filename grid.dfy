/** The output map: a square grid of tiles, each with its remaining candidate
    list ("entropy"), a collapsed flag, its own position and links to its four
    cardinal neighbours. The map is indexed `map[y][x]`; a neighbour link is the
    position of the neighbour (or None at the border) rather than an object
    reference. */
module Grid {
  import opened Rules

  datatype Pos = Pos(x: nat, y: nat)

  datatype Tile = Tile(entropy: seq<TileType>, x: nat, y: nat, collapsed: bool,
                       north: Option<Pos>, east: Option<Pos>,
                       south: Option<Pos>, west: Option<Pos>)

  datatype Option<T> = None | Some(value: T)

  type Map = seq<seq<Tile>>

  /** The neighbour link of tile `c` in direction `d`. */
  function Link(c: Tile, d: Dir): Option<Pos>
  {
    match d
    case North => c.north
    case East => c.east
    case South => c.south
    case West => c.west
  }

  /** The position next to `p` in direction `d` on a `size` x `size` map, if any. */
  function Adjacent(size: nat, p: Pos, d: Dir): Option<Pos>
  {
    match d
    case North => if p.y > 0 then Some(Pos(p.x, p.y - 1)) else None
    case South => if p.y + 1 < size then Some(Pos(p.x, p.y + 1)) else None
    case West => if p.x > 0 then Some(Pos(p.x - 1, p.y)) else None
    case East => if p.x + 1 < size then Some(Pos(p.x + 1, p.y)) else None
  }

  predicate InGrid(m: Map, p: Pos)
  {
    p.y < |m| && p.x < |m[p.y]|
  }

  function Get(m: Map, p: Pos): Tile
    requires InGrid(m, p)
  {
    m[p.y][p.x]
  }

  function SetTile(m: Map, p: Pos, c: Tile): (m': Map)
    requires InGrid(m, p)
    ensures |m'| == |m| && forall y :: 0 <= y < |m| ==> |m'[y]| == |m[y]|
    ensures Get(m', p) == c
    ensures forall q :: InGrid(m, q) && q != p ==> Get(m', q) == Get(m, q)
  {
    m[p.y := m[p.y][p.x := c]]
  }

  /** Every row is as long as the map is high. */
  ghost predicate Square(m: Map)
  {
    forall y :: 0 <= y < |m| ==> |m[y]| == |m|
  }

  /** Each tile knows its own position and is linked to the tiles next to it. */
  ghost predicate Linked(m: Map)
  {
    Square(m) &&
    forall p :: InGrid(m, p) ==>
      Get(m, p).x == p.x && Get(m, p).y == p.y &&
      forall d: Dir :: Link(Get(m, p), d) == Adjacent(|m|, p, d)
  }

  /** Tiles `c` and `c'` record the same position and the same links. */
  predicate SameFrame(c: Tile, c': Tile)
  {
    c.x == c'.x && c.y == c'.y &&
    c.north == c'.north && c.east == c'.east && c.south == c'.south && c.west == c'.west
  }

  /** Changing only candidate lists and collapsed flags keeps a map linked. */
  lemma LinkedKept(m: Map, m': Map)
    requires Linked(m) && |m'| == |m| && forall y :: 0 <= y < |m| ==> |m'[y]| == |m[y]|
    requires forall p :: InGrid(m, p) ==> SameFrame(Get(m, p), Get(m', p))
    ensures Linked(m')
  {
    forall p, d: Dir | InGrid(m', p) ensures Link(Get(m', p), d) == Adjacent(|m'|, p, d) {
      assert InGrid(m, p) && SameFrame(Get(m, p), Get(m', p));
      assert Link(Get(m, p), d) == Adjacent(|m|, p, d);
      match d
      case North =>
      case East =>
      case South =>
      case West =>
    }
  }

  /** The map `generateEmptyMap` produces: `size` x `size`, every tile linked,
      uncollapsed, with the full initial candidate list. */
  ghost predicate IsEmptyMap(m: Map, size: nat)
  {
    |m| == size && Linked(m) &&
    forall p :: InGrid(m, p) ==>
      Get(m, p).entropy == InitialEntropy && !Get(m, p).collapsed
  }

  /** A fresh tile at `p`, before its links are wired. */
  function BareTile(p: Pos): Tile
  {
    Tile(InitialEntropy, p.x, p.y, false, None, None, None, None)
  }

  /** A fresh tile at `p` on a `size` x `size` map, linked to its neighbours. */
  function WiredTile(size: nat, p: Pos): Tile
  {
    Tile(InitialEntropy, p.x, p.y, false,
         Adjacent(size, p, North), Adjacent(size, p, East),
         Adjacent(size, p, South), Adjacent(size, p, West))
  }

  /** Tiles up to (but excluding) `(x, y)` in row-major order are wired, the
      rest are still bare. */
  ghost predicate WiredBefore(m: Map, size: nat, x: nat, y: nat)
  {
    |m| == size && Square(m) &&
    forall p :: InGrid(m, p) ==>
      Get(m, p) == if p.y < y || (p.y == y && p.x < x) then WiredTile(size, p) else BareTile(p)
  }

  lemma WireOne(m: Map, size: nat, x: nat, y: nat, north: Option<Pos>, south: Option<Pos>,
                 west: Option<Pos>, east: Option<Pos>)
    requires WiredBefore(m, size, x, y) && y < size && x < size
    requires north == if y > 0 then Some(Pos(x, y - 1)) else None
    requires south == if y < size - 1 then Some(Pos(x, y + 1)) else None
    requires west == if x > 0 then Some(Pos(x - 1, y)) else None
    requires east == if x < size - 1 then Some(Pos(x + 1, y)) else None
    ensures InGrid(m, Pos(x, y))
    ensures WiredBefore(SetTile(m, Pos(x, y),
      Get(m, Pos(x, y)).(north := north, south := south, west := west, east := east)), size, x + 1, y)
  {
    var tile := Get(m, Pos(x, y)).(north := north, south := south, west := west, east := east);
    assert Get(m, Pos(x, y)) == BareTile(Pos(x, y));
    assert tile == WiredTile(size, Pos(x, y));
    var m' := SetTile(m, Pos(x, y), tile);
    forall p | InGrid(m', p)
      ensures Get(m', p) ==
        if p.y < y || (p.y == y && p.x < x + 1) then WiredTile(size, p) else BareTile(p)
    {
      if p != Pos(x, y) {
        assert InGrid(m, p) && Get(m', p) == Get(m, p);
      }
    }
  }

  lemma WiredRow(m: Map, size: nat, y: nat)
    requires WiredBefore(m, size, size, y)
    ensures WiredBefore(m, size, 0, y + 1)
  {
  }

  lemma WiredAll(m: Map, size: nat)
    requires WiredBefore(m, size, 0, size)
    ensures IsEmptyMap(m, size)
  {
    forall p, d: Dir | InGrid(m, p) ensures Link(Get(m, p), d) == Adjacent(size, p, d) {
      assert Get(m, p) == WiredTile(size, p);
      match d
      case North =>
      case East =>
      case South =>
      case West =>
    }
  }

  /** Builds the map: a first pass creates the rows of unlinked tiles, a second
      pass wires every tile to its neighbours. */
  method GenerateEmptyMap(size: nat) returns (m: Map)
    ensures IsEmptyMap(m, size)
  {
    m := [];
    var y := 0;
    while y < size
      invariant 0 <= y <= size && |m| == y
      invariant forall r :: 0 <= r < y ==> |m[r]| == size
      invariant forall p :: InGrid(m, p) ==> Get(m, p) == BareTile(p)
    {
      var col: seq<Tile> := [];
      var x := 0;
      while x < size
        invariant 0 <= x <= size && |col| == x
        invariant forall i :: 0 <= i < x ==> col[i] == BareTile(Pos(i, y))
      {
        col := col + [BareTile(Pos(x, y))];
        x := x + 1;
      }
      m := m + [col];
      y := y + 1;
    }

    y := 0;
    while y < size
      invariant 0 <= y <= size && WiredBefore(m, size, 0, y)
    {
      var x := 0;
      while x < size
        invariant 0 <= x <= size && WiredBefore(m, size, x, y)
      {
        var here := Pos(x, y);
        assert InGrid(m, here) && Get(m, here) == BareTile(here);
        var tile := Get(m, here);
        var north, south, west, east := tile.north, tile.south, tile.west, tile.east;
        if y > 0 { north := Some(Pos(x, y - 1)); }
        if y < size - 1 { south := Some(Pos(x, y + 1)); }
        if x > 0 { west := Some(Pos(x - 1, y)); }
        if x < size - 1 { east := Some(Pos(x + 1, y)); }
        WireOne(m, size, x, y, north, south, west, east);
        tile := tile.(north := north, south := south, west := west, east := east);
        m := SetTile(m, here, tile);
        x := x + 1;
      }
      WiredRow(m, size, y);
      y := y + 1;
    }
    WiredAll(m, size);
  }

  /** Following a link and then the opposite link leads back: the north
      neighbour's south neighbour is the tile itself, and so on. */
  lemma LinksAreMutual(m: Map, p: Pos, d: Dir)
    requires Linked(m) && InGrid(m, p)
    ensures Link(Get(m, p), d).Some? ==>
      InGrid(m, Link(Get(m, p), d).value) &&
      Link(Get(m, Link(Get(m, p), d).value), Opposite(d)) == Some(p)
  {
  }

  /** A link exists exactly when the neighbouring position is inside the map,
      and it points one step away along `d`. */
  lemma LinkFollowsPosition(m: Map, p: Pos, d: Dir)
    requires Linked(m) && InGrid(m, p)
    ensures Link(Get(m, p), d) == Adjacent(|m|, p, d)
    ensures d == North ==> (Link(Get(m, p), d).Some? <==> p.y > 0)
    ensures d == South ==> (Link(Get(m, p), d).Some? <==> p.y < |m| - 1)
    ensures d == West ==> (Link(Get(m, p), d).Some? <==> p.x > 0)
    ensures d == East ==> (Link(Get(m, p), d).Some? <==> p.x < |m| - 1)
  {
  }

  // ---------------------------------------------------------------------------
  // Counting collapsed tiles

  /** 1 for a collapsed tile, 0 otherwise. */
  function CollapsedBit(b: bool): nat { if b then 1 else 0 }

  function CountRow(row: seq<Tile>): (n: nat)
    ensures n <= |row|
  {
    if row == [] then 0 else CountRow(row[..|row| - 1]) + CollapsedBit(row[|row| - 1].collapsed)
  }

  /** The number of collapsed tiles in the map. */
  function CountCollapsed(m: Map): nat
  {
    if m == [] then 0 else CountCollapsed(m[..|m| - 1]) + CountRow(m[|m| - 1])
  }

  /** The number of tiles in the map. */
  function Size(m: Map): nat
  {
    if m == [] then 0 else Size(m[..|m| - 1]) + |m[|m| - 1]|
  }

  ghost predicate AllCollapsed(m: Map)
  {
    forall p :: InGrid(m, p) ==> Get(m, p).collapsed
  }

  lemma {:induction false} CountRowUpdate(row: seq<Tile>, i: nat, c: Tile)
    requires i < |row|
    ensures CountRow(row[i := c]) + CollapsedBit(row[i].collapsed) == CountRow(row) + CollapsedBit(c.collapsed)
  {
    var k := |row| - 1;
    assert row[i := c][..k] == if i < k then row[..k][i := c] else row[..k];
    if i < k {
      CountRowUpdate(row[..k], i, c);
    }
  }

  lemma {:induction false} CountRowFull(row: seq<Tile>)
    ensures CountRow(row) == |row| <==> forall i :: 0 <= i < |row| ==> row[i].collapsed
  {
    if row != [] {
      var k := |row| - 1;
      CountRowFull(row[..k]);
      assert forall i :: 0 <= i < k ==> row[..k][i] == row[i];
    }
  }

  /** Replacing one tile changes the count only by the change of its flag. */
  lemma {:induction false} CountUpdate(m: Map, p: Pos, c: Tile)
    requires InGrid(m, p)
    ensures CountCollapsed(SetTile(m, p, c)) + CollapsedBit(Get(m, p).collapsed)
         == CountCollapsed(m) + CollapsedBit(c.collapsed)
    ensures Size(SetTile(m, p, c)) == Size(m)
  {
    var k := |m| - 1;
    var m' := SetTile(m, p, c);
    if p.y < k {
      assert m'[..k] == SetTile(m[..k], p, c);
      CountUpdate(m[..k], p, c);
    } else {
      assert m'[..k] == m[..k];
      CountRowUpdate(m[k], p.x, c);
    }
  }

  /** At most every tile is collapsed, and all are exactly when the count
      reaches the number of tiles. */
  lemma {:induction false} CountBound(m: Map)
    ensures CountCollapsed(m) <= Size(m)
    ensures CountCollapsed(m) == Size(m) <==> AllCollapsed(m)
  {
    if m != [] {
      var k := |m| - 1;
      CountBound(m[..k]);
      CountRowFull(m[k]);
      assert forall p :: InGrid(m[..k], p) ==> InGrid(m, p) && Get(m[..k], p) == Get(m, p);
      if CountCollapsed(m) == Size(m) {
        forall p | InGrid(m, p) ensures Get(m, p).collapsed {
          if p.y < k { assert InGrid(m[..k], p); }
        }
      }
      if AllCollapsed(m) {
        forall i | 0 <= i < |m[k]| ensures m[k][i].collapsed {
          assert InGrid(m, Pos(i, k));
        }
      }
    }
  }

  lemma {:induction false} UniformSize(m: Map, n: nat)
    requires forall y :: 0 <= y < |m| ==> |m[y]| == n
    ensures Size(m) == |m| * n
  {
    if m != [] {
      UniformSize(m[..|m| - 1], n);
    }
  }

  /** A square map of side `size` has `size * size` tiles. */
  lemma SquareSize(m: Map)
    requires Square(m)
    ensures Size(m) == |m| * |m|
  {
    UniformSize(m, |m|);
  }
}

/** The tile extractor of the image worker: cut an RGBA image into
    `tileWidth` x `tileHeight` blocks, scanning block rows top to bottom and
    blocks left to right, and keep the first copy of every distinct block. */
module TileDedup {
  import opened Arith

  /** One channel value of the pixel buffer. */
  type Byte = x: int | 0 <= x < 256

  // ---------------------------------------------------------------------------
  // Blocks of the pixel buffer

  /** Byte offset of pixel `(x, y)` in an RGBA buffer `width` pixels wide. */
  function Offset(width: nat, x: nat, y: nat): nat
  {
    (Mul(y, width) + x) * 4
  }

  /** Every byte of the block whose top-left pixel is `(sx, sy)` lies inside a
      buffer of `len` bytes holding an image `width` pixels wide. */
  predicate InBounds(len: nat, width: nat, sx: nat, sy: nat, tw: nat, th: nat)
  {
    tw == 0 || th == 0 || (Mul(sy + th - 1, width) + sx + tw) * 4 <= len
  }

  /** Where byte `k` of a block comes from: blocks are laid out row after
      row, `tw` pixels of four bytes each; the block row that starts at byte
      `start` of the buffer is followed by the one `stride` bytes further on. */
  function SourceOf(stride: nat, start: nat, tw: nat, k: nat): nat
    requires tw > 0
    decreases k
  {
    if k < tw * 4 then start + k else SourceOf(stride, start + stride, tw, k - tw * 4)
  }

  /** Every byte of a block inside the image is read from inside the buffer. */
  lemma {:induction false} SourceBound(len: nat, width: nat, sx: nat, sy: nat, tw: nat, th: nat, k: nat)
    requires InBounds(len, width, sx, sy, tw, th) && tw > 0 && k < Mul(th, tw) * 4
    ensures SourceOf(width * 4, Offset(width, sx, sy), tw, k) < len
    decreases th
  {
    if k < tw * 4 {
      MulMonoLeft(sy, sy + th - 1, width);
    } else {
      assert Offset(width, sx, sy) + width * 4 == Offset(width, sx, sy + 1);
      SourceBound(len, width, sx, sy + 1, tw, th - 1, k - tw * 4);
    }
  }

  /** The bytes of the `tw` x `th` block whose top-left pixel is `(sx, sy)`,
      row after row. */
  function Block(pixels: seq<Byte>, width: nat, sx: nat, sy: nat, tw: nat, th: nat): (b: seq<Byte>)
    requires InBounds(|pixels|, width, sx, sy, tw, th)
    ensures |b| == Mul(th, tw) * 4
  {
    if tw == 0 then MulZero(th); []
    else
      seq(Mul(th, tw) * 4, k requires 0 <= k < Mul(th, tw) * 4 =>
        SourceBound(|pixels|, width, sx, sy, tw, th, k);
        pixels[SourceOf(width * 4, Offset(width, sx, sy), tw, k)])
  }

  /** Byte `i` of pixel `(x, y)` of a block comes from `y` strides below the
      block's first row, `x` pixels in. */
  lemma {:induction false} SourceAt(stride: nat, start: nat, tw: nat, x: nat, y: nat, i: nat)
    requires x < tw && i < 4
    ensures SourceOf(stride, start, tw, (Mul(y, tw) + x) * 4 + i) == start + Mul(y, stride) + x * 4 + i
    decreases y
  {
    if y > 0 {
      SourceAt(stride, start + stride, tw, x, y - 1, i);
      assert (Mul(y, tw) + x) * 4 + i - tw * 4 == (Mul(y - 1, tw) + x) * 4 + i;
    }
  }

  /** The index mapping of `getTileData`: byte `i` of pixel `(x, y)` of the
      block, at output index `(y * tw + x) * 4 + i`, is byte `i` of pixel
      `(sx + x, sy + y)` of the image, at source index
      `((sy + y) * width + sx + x) * 4 + i`, and that index is inside the buffer. */
  lemma BlockAt(pixels: seq<Byte>, width: nat, sx: nat, sy: nat, tw: nat, th: nat, x: nat, y: nat, i: nat)
    requires InBounds(|pixels|, width, sx, sy, tw, th)
    requires x < tw && y < th && i < 4
    ensures (Mul(y, tw) + x) * 4 + i < Mul(th, tw) * 4
    ensures (Mul(sy + y, width) + sx + x) * 4 + i < |pixels|
    ensures Block(pixels, width, sx, sy, tw, th)[(Mul(y, tw) + x) * 4 + i] ==
            pixels[(Mul(sy + y, width) + sx + x) * 4 + i]
  {
    MulMonoLeft(y + 1, th, tw);
    var k := (Mul(y, tw) + x) * 4 + i;
    var source := SourceOf(width * 4, Offset(width, sx, sy), tw, k);
    SourceAt(width * 4, Offset(width, sx, sy), tw, x, y, i);
    MulAdd(sy, y, width);
    MulTimesFour(y, width);
    assert source == (Mul(sy + y, width) + sx + x) * 4 + i;
    SourceBound(|pixels|, width, sx, sy, tw, th, k);
    assert Block(pixels, width, sx, sy, tw, th)[k] == pixels[source];
  }

  // ---------------------------------------------------------------------------
  // getTileData and compareTiles

  /** `getTileData`: copy the block at `(startX, startY)` into a fresh buffer
      of `tileWidth * tileHeight * 4` bytes, pixel by pixel, channel by channel. */
  method GetTileData(pixels: seq<Byte>, width: nat, startX: nat, startY: nat,
                     tileWidth: nat, tileHeight: nat) returns (tileData: seq<Byte>)
    requires InBounds(|pixels|, width, startX, startY, tileWidth, tileHeight)
    ensures |tileData| == tileWidth * tileHeight * 4
    ensures tileData == Block(pixels, width, startX, startY, tileWidth, tileHeight)
  {
    MulIsTimes(tileHeight, tileWidth);
    ghost var block := Block(pixels, width, startX, startY, tileWidth, tileHeight);
    var data := new Byte[Mul(tileHeight, tileWidth) * 4];
    var y := 0;
    while y < tileHeight
      invariant 0 <= y <= tileHeight
      invariant Mul(y, tileWidth) * 4 <= data.Length
      invariant forall k :: 0 <= k < Mul(y, tileWidth) * 4 ==> data[k] == block[k]
    {
      MulMonoLeft(y + 1, tileHeight, tileWidth);
      var x := 0;
      while x < tileWidth
        invariant 0 <= x <= tileWidth
        invariant (Mul(y, tileWidth) + x) * 4 <= data.Length
        invariant forall k :: 0 <= k < (Mul(y, tileWidth) + x) * 4 ==> data[k] == block[k]
      {
        var sourceIndex := (Mul(startY + y, width) + startX + x) * 4;
        var destIndex := (Mul(y, tileWidth) + x) * 4;
        var i := 0;
        while i < 4
          invariant 0 <= i <= 4
          invariant forall k :: 0 <= k < destIndex + i ==> data[k] == block[k]
        {
          BlockAt(pixels, width, startX, startY, tileWidth, tileHeight, x, y, i);
          data[destIndex + i] := pixels[sourceIndex + i];
          i := i + 1;
        }
        x := x + 1;
      }
      y := y + 1;
    }
    tileData := data[..];
  }

  /** `compareTiles` pointwise: same length and the same byte at every index. */
  predicate SameBytes(a: seq<Byte>, b: seq<Byte>)
  {
    |a| == |b| && forall i :: 0 <= i < |a| ==> a[i] == b[i]
  }

  /** Pointwise comparison is equality of the byte sequences, hence an
      equivalence: reflexive, symmetric and transitive. */
  lemma SameBytesIsEquality(a: seq<Byte>, b: seq<Byte>, c: seq<Byte>)
    ensures SameBytes(a, b) <==> a == b
    ensures SameBytes(a, a)
    ensures SameBytes(a, b) ==> SameBytes(b, a)
    ensures SameBytes(a, b) && SameBytes(b, c) ==> SameBytes(a, c)
  {
  }

  /** `compareTiles`: lengths first, then byte by byte, stopping at the first
      difference. */
  method CompareTiles(tileData1: seq<Byte>, tileData2: seq<Byte>) returns (same: bool)
    ensures same <==> SameBytes(tileData1, tileData2)
    ensures same <==> tileData1 == tileData2
  {
    if |tileData1| != |tileData2| {
      return false;
    }
    var i := 0;
    while i < |tileData1|
      invariant 0 <= i <= |tileData1|
      invariant forall j :: 0 <= j < i ==> tileData1[j] == tileData2[j]
    {
      if tileData1[i] != tileData2[i] {
        return false;
      }
      i := i + 1;
    }
    return true;
  }

  // ---------------------------------------------------------------------------
  // The scan

  /** The first `n` blocks of block row `y`, left to right. */
  function RowOfBlocks(pixels: seq<Byte>, width: nat, tw: nat, th: nat, y: nat, n: nat): (r: seq<seq<Byte>>)
    requires Mul(n, tw) <= width && Mul(Mul(y + 1, th), width) * 4 <= |pixels|
    ensures |r| == n
  {
    if n == 0 then []
    else
      assert InBounds(|pixels|, width, Mul(n - 1, tw), Mul(y, th), tw, th) by {
        BlockInBounds(|pixels|, width, tw, th, n - 1, y);
      }
      RowOfBlocks(pixels, width, tw, th, y, n - 1) +
      [Block(pixels, width, Mul(n - 1, tw), Mul(y, th), tw, th)]
  }

  /** The blocks of the first `cols` block rows, `rows` blocks each, in scan order. */
  function Scanned(pixels: seq<Byte>, width: nat, tw: nat, th: nat, rows: nat, cols: nat): (s: seq<seq<Byte>>)
    requires Mul(rows, tw) <= width && Mul(Mul(cols, th), width) * 4 <= |pixels|
    ensures |s| == Mul(cols, rows)
  {
    if cols == 0 then []
    else
      assert Mul(Mul(cols - 1, th), width) * 4 <= |pixels| by {
        MulMonoLeft(Mul(cols - 1, th), Mul(cols, th), width);
      }
      Scanned(pixels, width, tw, th, rows, cols - 1) + RowOfBlocks(pixels, width, tw, th, cols - 1, rows)
  }

  /** Entry `x` of a block row is the block in column `x`. */
  lemma {:induction false} RowOfBlocksAt(pixels: seq<Byte>, width: nat, tw: nat, th: nat, y: nat, n: nat, x: nat)
    requires Mul(n, tw) <= width && Mul(Mul(y + 1, th), width) * 4 <= |pixels| && x < n
    ensures InBounds(|pixels|, width, Mul(x, tw), Mul(y, th), tw, th)
    ensures RowOfBlocks(pixels, width, tw, th, y, n)[x] == Block(pixels, width, Mul(x, tw), Mul(y, th), tw, th)
  {
    MulMonoLeft(x + 1, n, tw);
    BlockInBounds(|pixels|, width, tw, th, x, y);
    if x < n - 1 {
      MulMonoLeft(n - 1, n, tw);
      RowOfBlocksAt(pixels, width, tw, th, y, n - 1, x);
    }
  }

  /** Scanning one more block row appends that row's blocks. */
  lemma ScannedNext(pixels: seq<Byte>, width: nat, tw: nat, th: nat, rows: nat, y: nat)
    requires Mul(rows, tw) <= width && Mul(Mul(y + 1, th), width) * 4 <= |pixels|
    requires Mul(Mul(y, th), width) * 4 <= |pixels|
    ensures Scanned(pixels, width, tw, th, rows, y + 1) ==
      Scanned(pixels, width, tw, th, rows, y) + RowOfBlocks(pixels, width, tw, th, y, rows)
  {
  }

  /** The block in column `x` of block row `y` is read inside the buffer. */
  lemma BlockInBounds(len: nat, width: nat, tw: nat, th: nat, x: nat, y: nat)
    requires Mul(x + 1, tw) <= width && Mul(Mul(y + 1, th), width) * 4 <= len
    ensures InBounds(len, width, Mul(x, tw), Mul(y, th), tw, th)
  {
    if tw > 0 && th > 0 {
      assert Mul(y + 1, th) == Mul(y, th) + th;
      assert Mul(Mul(y + 1, th), width) == Mul(Mul(y, th) + th - 1, width) + width;
    }
  }

  /** The scan with duplicates removed, each block at its first occurrence. */
  function Dedup<T(==)>(s: seq<T>): (d: seq<T>)
  {
    if s == [] then []
    else
      var d := Dedup(s[..|s| - 1]);
      if s[|s| - 1] in d then d else d + [s[|s| - 1]]
  }

  /** Keeping first occurrences loses no block and invents none. */
  lemma {:induction false} DedupMembers<T>(s: seq<T>)
    ensures forall b :: b in Dedup(s) <==> b in s
    ensures |Dedup(s)| <= |s|
  {
    if s != [] {
      DedupMembers(s[..|s| - 1]);
      assert s == s[..|s| - 1] + [s[|s| - 1]];
    }
  }

  /** No block is kept twice. */
  lemma {:induction false} DedupDistinct<T>(s: seq<T>)
    ensures forall i, j :: 0 <= i < j < |Dedup(s)| ==> Dedup(s)[i] != Dedup(s)[j]
  {
    if s != [] {
      DedupDistinct(s[..|s| - 1]);
    }
  }

  /** The position of the first occurrence of `b` in `s`. */
  function FirstIndex<T(==)>(s: seq<T>, b: T): (k: nat)
    requires b in s
    ensures k < |s| && s[k] == b && forall i :: 0 <= i < k ==> s[i] != b
  {
    if s[0] == b then 0
    else
      assert b in s[1..] by {
        var i :| 0 <= i < |s| && s[i] == b;
        assert s[1..][i - 1] == b;
      }
      FirstIndex(s[1..], b) + 1
  }

  /** Kept blocks appear in the order of their first occurrence in the scan. */
  lemma {:induction false} DedupOrder<T>(s: seq<T>)
    ensures forall b :: b in Dedup(s) ==> b in s
    ensures forall i, j :: 0 <= i < j < |Dedup(s)| ==>
      FirstIndex(s, Dedup(s)[i]) < FirstIndex(s, Dedup(s)[j])
  {
    DedupMembers(s);
    if s != [] {
      var s', last := s[..|s| - 1], s[|s| - 1];
      assert s == s' + [last];
      DedupOrder(s');
      DedupMembers(s');
      var d, d' := Dedup(s), Dedup(s');
      forall b | b in s'
        ensures FirstIndex(s, b) == FirstIndex(s', b)
      {
        FirstAgrees(s', last, b);
      }
      if last !in d' {
        assert FirstIndex(s, last) == |s'|;
        forall i, j | 0 <= i < j < |d|
          ensures FirstIndex(s, d[i]) < FirstIndex(s, d[j])
        {
          assert d[i] == d'[i] && d[i] in s';
        }
      }
    }
  }

  /** Appending to a sequence does not move a first occurrence already in it. */
  lemma {:induction false} FirstAgrees<T>(s: seq<T>, last: T, b: T)
    requires b in s
    ensures b in s + [last] && FirstIndex(s + [last], b) == FirstIndex(s, b)
  {
    assert (s + [last])[FirstIndex(s, b)] == b;
  }

  /** One more scanned block: it is kept exactly when it was not kept before. */
  lemma DedupStep<T>(done: seq<T>, row: seq<T>, b: T)
    ensures Dedup(done + (row + [b])) ==
      if b in Dedup(done + row) then Dedup(done + row) else Dedup(done + row) + [b]
  {
    assert done + (row + [b]) == (done + row) + [b];
    assert ((done + row) + [b])[..|done + row|] == done + row;
  }

  /** One step of the inner scan loop: the kept list for the blocks up to
      column `x` of row `y`, extended by the block at column `x` when it is new,
      is the kept list for the blocks up to column `x + 1`. */
  lemma ScanStep(pixels: seq<Byte>, width: nat, tw: nat, th: nat, y: nat, x: nat,
                 done: seq<seq<Byte>>, kept: seq<seq<Byte>>, tileData: seq<Byte>)
    requires Mul(x + 1, tw) <= width && Mul(Mul(y + 1, th), width) * 4 <= |pixels|
    requires kept == Dedup(done + RowOfBlocks(pixels, width, tw, th, y, x))
    requires InBounds(|pixels|, width, Mul(x, tw), Mul(y, th), tw, th)
    requires tileData == Block(pixels, width, Mul(x, tw), Mul(y, th), tw, th)
    ensures Mul(x, tw) <= width
    ensures (if tileData in kept then kept else kept + [tileData]) ==
      Dedup(done + RowOfBlocks(pixels, width, tw, th, y, x + 1))
  {
    DedupStep(done, RowOfBlocks(pixels, width, tw, th, y, x), tileData);
  }

  /** The `isUnique` search of `computeTileMap`: compare `tileData` with each
      kept tile in turn and stop at the first match. */
  method IsUnique(uniqueTiles: seq<seq<Byte>>, tileData: seq<Byte>) returns (isUnique: bool)
    ensures isUnique <==> tileData !in uniqueTiles
  {
    isUnique := true;
    var i := 0;
    while i < |uniqueTiles|
      invariant 0 <= i <= |uniqueTiles|
      invariant isUnique <==> forall j :: 0 <= j < i ==> uniqueTiles[j] != tileData
    {
      var same := CompareTiles(uniqueTiles[i], tileData);
      if same {
        isUnique := false;
        break;
      }
      i := i + 1;
    }
  }

  /** `computeTileMap` after the image is decoded: `pixels` holds a
      `width` x `height` RGBA image; scan its whole blocks and keep the first
      copy of each distinct one. */
  method ComputeTileMap(pixels: seq<Byte>, width: nat, height: nat, tileWidth: nat, tileHeight: nat)
    returns (uniqueTiles: seq<seq<Byte>>)
    requires tileWidth > 0 && tileHeight > 0 && |pixels| == Mul(height, width) * 4
    ensures ScanFits(|pixels|, width, tileWidth, tileHeight, width / tileWidth, height / tileHeight)
    ensures uniqueTiles ==
      Dedup(Scanned(pixels, width, tileWidth, tileHeight, width / tileWidth, height / tileHeight))
    ensures forall b :: b in uniqueTiles <==>
      b in Scanned(pixels, width, tileWidth, tileHeight, width / tileWidth, height / tileHeight)
    ensures forall i, j :: 0 <= i < j < |uniqueTiles| ==> uniqueTiles[i] != uniqueTiles[j]
    ensures |uniqueTiles| <= (width / tileWidth) * (height / tileHeight)
  {
    MulIsTimes(height / tileHeight, width / tileWidth);
    var rows := width / tileWidth;
    var cols := height / tileHeight;
    FloorDivMul(width, tileWidth);
    FloorDivMul(height, tileHeight);
    ScanFitsImage(width, height, tileWidth, tileHeight, rows, cols);
    uniqueTiles := ScanBlocks(pixels, width, tileWidth, tileHeight, rows, cols);
    DedupMembers(Scanned(pixels, width, tileWidth, tileHeight, rows, cols));
    DedupDistinct(Scanned(pixels, width, tileWidth, tileHeight, rows, cols));
  }

  /** The scan loops of `computeTileMap`: block rows top to bottom, blocks
      left to right, each block kept unless an equal one already was. */
  method ScanBlocks(pixels: seq<Byte>, width: nat, tileWidth: nat, tileHeight: nat, rows: nat, cols: nat)
    returns (uniqueTiles: seq<seq<Byte>>)
    requires ScanFits(|pixels|, width, tileWidth, tileHeight, rows, cols)
    ensures uniqueTiles == Dedup(Scanned(pixels, width, tileWidth, tileHeight, rows, cols))
  {
    uniqueTiles := [];
    var y := 0;
    while y < cols
      invariant 0 <= y <= cols
      invariant Mul(Mul(y, tileHeight), width) * 4 <= |pixels|
      invariant uniqueTiles == Dedup(Scanned(pixels, width, tileWidth, tileHeight, rows, y))
    {
      MulMonoLeft(y + 1, cols, tileHeight);
      MulMonoLeft(Mul(y + 1, tileHeight), Mul(cols, tileHeight), width);
      ScannedNext(pixels, width, tileWidth, tileHeight, rows, y);
      uniqueTiles := ScanBlockRow(pixels, width, tileWidth, tileHeight, rows, y,
                                  Scanned(pixels, width, tileWidth, tileHeight, rows, y), uniqueTiles);
      y := y + 1;
    }
  }

  /** The inner scan loop of `computeTileMap`: the blocks of block row `y`,
      left to right, each kept unless an equal one already was; `done` is
      what was scanned before this row. */
  method ScanBlockRow(pixels: seq<Byte>, width: nat, tileWidth: nat, tileHeight: nat, rows: nat, y: nat,
                      ghost done: seq<seq<Byte>>, kept: seq<seq<Byte>>)
    returns (uniqueTiles: seq<seq<Byte>>)
    requires Mul(rows, tileWidth) <= width && Mul(Mul(y + 1, tileHeight), width) * 4 <= |pixels|
    requires kept == Dedup(done)
    ensures uniqueTiles == Dedup(done + RowOfBlocks(pixels, width, tileWidth, tileHeight, y, rows))
  {
    uniqueTiles := kept;
    var x := 0;
    assert done + RowOfBlocks(pixels, width, tileWidth, tileHeight, y, 0) == done;
    while x < rows
      invariant 0 <= x <= rows
      invariant Mul(x, tileWidth) <= width
      invariant uniqueTiles == Dedup(done + RowOfBlocks(pixels, width, tileWidth, tileHeight, y, x))
    {
      MulMonoLeft(x + 1, rows, tileWidth);
      BlockInBounds(|pixels|, width, tileWidth, tileHeight, x, y);
      var tileData := GetTileData(pixels, width, Mul(x, tileWidth), Mul(y, tileHeight), tileWidth, tileHeight);
      var isUnique := IsUnique(uniqueTiles, tileData);
      ScanStep(pixels, width, tileWidth, tileHeight, y, x, done, uniqueTiles, tileData);
      if isUnique {
        uniqueTiles := uniqueTiles + [tileData];
      }
      x := x + 1;
    }
  }

  /** The whole blocks of a `width` x `height` image: `rows` blocks of width
      `tw` per block row and `cols` block rows of height `th` fit inside the
      image and its buffer. */
  ghost predicate ScanFits(len: nat, width: nat, tw: nat, th: nat, rows: nat, cols: nat)
  {
    Mul(rows, tw) <= width && Mul(Mul(cols, th), width) * 4 <= len
  }

  /** Whole blocks that fit the image fit its buffer. */
  lemma ScanFitsImage(width: nat, height: nat, tw: nat, th: nat, rows: nat, cols: nat)
    requires Mul(rows, tw) <= width && Mul(cols, th) <= height
    ensures ScanFits(Mul(height, width) * 4, width, tw, th, rows, cols)
  {
    MulMonoLeft(Mul(cols, th), height, width);
  }
}

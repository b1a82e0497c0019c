/**
 The tile scheduler `ImageIter`: cuts a `w x h` image into 128 x 128 tiles,
 handed out one per call of `next` in row-major order. Tiles on the last
 column are `w % 128` wide and tiles on the last row are `h % 128` high;
 a tile of zero width or height is skipped by calling `next` again.
 */
module Tiling {
  import opened Ints
  import opened Options
  import opened Rects

  const TILE: u32 := 128

  /** The iterator's private state; `x`, `y` index the next candidate tile. */
  datatype ImageIter = ImageIter(
    x: u32, y: u32,
    numTilesX: u32, numTilesY: u32,
    tileW: u32, tileH: u32,
    endRowW: u32, endRowH: u32)

  /** The image width the state was built for. */
  function ImageWidth(it: ImageIter): int
  {
    it.numTilesX * TILE + it.endRowW
  }

  function ImageHeight(it: ImageIter): int
  {
    it.numTilesY * TILE + it.endRowH
  }

  /**
   The states `for_image_dimensions` and `next` can produce: 128-pixel tiles,
   a cursor column in 0..=num_tiles_x and a cursor row in 0..=num_tiles_y + 1.
   */
  predicate Valid(it: ImageIter)
  {
    && it.tileW == TILE && it.tileH == TILE
    && it.endRowW < TILE && it.endRowH < TILE
    && ImageWidth(it) < U32_LIMIT && ImageHeight(it) < U32_LIMIT
    && it.x <= it.numTilesX && it.y <= it.numTilesY + 1
  }

  /** Two states over the same image (they may differ only in the cursor). */
  predicate SameImage(a: ImageIter, b: ImageIter)
  {
    a.(x := b.x, y := b.y) == b
  }

  /** `ImageIter::for_image_dimensions`. */
  function ForImageDimensions(w: u32, h: u32): (it: ImageIter)
    ensures Valid(it)
    ensures ImageWidth(it) == w && ImageHeight(it) == h
    ensures it.x == 0 && it.y == 0
  {
    ImageIter(0, 0, w / TILE, h / TILE, TILE, TILE, w % TILE, h % TILE)
  }

  /** `number_of_tiles`, as written (a wrapping `u32` product). */
  function NumberOfTiles(it: ImageIter): u32
  {
    Wrap32(it.numTilesX * (it.numTilesY + 1))
  }

  /** Row-major order on (column, row) cells: `(x0, y0)` comes no later than `(x1, y1)`. */
  predicate LexLe(x0: int, y0: int, x1: int, y1: int)
  {
    y0 < y1 || (y0 == y1 && x0 <= x1)
  }

  predicate LexLt(x0: int, y0: int, x1: int, y1: int)
  {
    y0 < y1 || (y0 == y1 && x0 < x1)
  }

  /** The grid cell a tile occupies. */
  function CellX(t: Rect): int
  {
    t.origin.x / TILE
  }

  function CellY(t: Rect): int
  {
    t.origin.y / TILE
  }

  /** A pixel of the image whose cell the cursor has not yet passed. */
  predicate Pending(it: ImageIter, px: int, py: int)
  {
    && 0 <= px < ImageWidth(it) && 0 <= py < ImageHeight(it)
    && LexLe(it.x, it.y, px / TILE, py / TILE)
  }

  /** No pixel of the image is left for the cursor to hand out. */
  ghost predicate Exhausted(it: ImageIter)
  {
    forall px, py :: !Pending(it, px, py)
  }

  function Min(a: int, b: int): int
  {
    if a <= b then a else b
  }

  /**
   A well-placed tile of a `w x h` image: its origin sits on the 128-pixel
   grid inside the image and it is as large as both the tile size and the
   image allow, so it has width and height in 1..=128.
   */
  predicate IsTile(t: Rect, w: int, h: int)
  {
    && t.origin.x % TILE == 0 && t.origin.y % TILE == 0
    && t.origin.x < w && t.origin.y < h
    && t.width == Min(TILE, w - t.origin.x)
    && t.height == Min(TILE, h - t.origin.y)
  }

  predicate InRect(t: Rect, px: int, py: int)
  {
    t.origin.x <= px < t.origin.x + t.width && t.origin.y <= py < t.origin.y + t.height
  }

  /** The candidate rectangle at the cursor: the remainder sizes on the last column and row. */
  function CurrentTile(it: ImageIter): (t: Rect)
    requires Valid(it) && it.y <= it.numTilesY
    ensures t.width <= TILE && t.height <= TILE
    ensures t.origin.x <= ImageWidth(it) && t.origin.y <= ImageHeight(it)
  {
    var useW := if it.x == it.numTilesX then it.endRowW else it.tileW;
    var useH := if it.y == it.numTilesY then it.endRowH else it.tileH;
    Rect(ScreenPoint(it.x * it.tileW, it.y * it.tileH), useW, useH)
  }

  /** The cursor step of `next`: x advances, wrapping to 0 on the next row once it passes `num_tiles_x`. */
  function Advance(it: ImageIter): (a: ImageIter)
    requires Valid(it) && it.y <= it.numTilesY
    ensures Valid(a) && SameImage(a, it)
    ensures LexLt(it.x, it.y, a.x, a.y)
  {
    var x := it.x + 1;
    if x > it.numTilesX then it.(x := 0, y := it.y + 1) else it.(x := x)
  }

  /**
   `ImageIter::next`. A `Some` is a well-placed tile at or after the cursor,
   the new cursor lies just past it, and every pending pixel is either in the
   tile or still pending. A `None` leaves a cursor past the last row, and
   means no pixel was pending.
   */
  function Next(it: ImageIter): (res: (Option<Rect>, ImageIter))
    requires Valid(it)
    ensures Valid(res.1) && SameImage(res.1, it)
    ensures res.0.None? ==> res.1.y > res.1.numTilesY && Exhausted(it)
    ensures res.0.Some? ==>
      var t := res.0.value;
      && IsTile(t, ImageWidth(it), ImageHeight(it))
      && LexLe(it.x, it.y, CellX(t), CellY(t))
      && LexLt(CellX(t), CellY(t), res.1.x, res.1.y)
      && forall px, py :: Pending(it, px, py) ==> InRect(t, px, py) || Pending(res.1, px, py)
    decreases it.numTilesY + 1 - it.y, it.numTilesX - it.x
  {
    if it.y > it.numTilesY then
      PastLastRow(it);
      (None, it)
    else
      var current := CurrentTile(it);
      var next := Advance(it);
      if current.width == 0 || current.height == 0 then
        EmptyCellSkipped(it);
        Next(next)
      else
        TileAtCursor(it);
        (Some(current), next)
  }

  /** Pixel `p` lies in grid cell `c` exactly when it is among that cell's 128 pixels. */
  lemma CellOf(p: int, c: int)
    requires p >= 0
    ensures p / TILE == c <==> c * TILE <= p < c * TILE + TILE
  {
  }

  /** Every pixel of the image lies in a cell with column at most num_tiles_x and row at most num_tiles_y. */
  lemma PixelCellBounds(it: ImageIter, px: int, py: int)
    requires Valid(it) && 0 <= px < ImageWidth(it) && 0 <= py < ImageHeight(it)
    ensures px / TILE <= it.numTilesX && py / TILE <= it.numTilesY
  {
  }

  lemma PastLastRow(it: ImageIter)
    requires Valid(it) && it.y > it.numTilesY
    ensures Exhausted(it)
  {
    forall px, py ensures !Pending(it, px, py) {
      if 0 <= px < ImageWidth(it) && 0 <= py < ImageHeight(it) {
        PixelCellBounds(it, px, py);
      }
    }
  }

  /** A zero-area candidate holds no pixel, so skipping it loses nothing. */
  lemma EmptyCellSkipped(it: ImageIter)
    requires Valid(it) && it.y <= it.numTilesY
    requires CurrentTile(it).width == 0 || CurrentTile(it).height == 0
    ensures forall px, py :: Pending(it, px, py) ==> Pending(Advance(it), px, py)
  {
    forall px, py | Pending(it, px, py) ensures Pending(Advance(it), px, py) {
      PixelCellBounds(it, px, py);
      CellOf(px, it.x);
      CellOf(py, it.y);
    }
  }

  /** A non-empty candidate is a well-placed tile in the cursor's cell that holds every pending pixel of that cell. */
  lemma TileAtCursor(it: ImageIter)
    requires Valid(it) && it.y <= it.numTilesY
    requires CurrentTile(it).width != 0 && CurrentTile(it).height != 0
    ensures IsTile(CurrentTile(it), ImageWidth(it), ImageHeight(it))
    ensures CellX(CurrentTile(it)) == it.x && CellY(CurrentTile(it)) == it.y
    ensures forall px, py :: Pending(it, px, py) ==>
      InRect(CurrentTile(it), px, py) || Pending(Advance(it), px, py)
  {
    var t := CurrentTile(it);
    CellOf(t.origin.x, it.x);
    CellOf(t.origin.y, it.y);
    forall px, py | Pending(it, px, py)
      ensures InRect(t, px, py) || Pending(Advance(it), px, py)
    {
      PixelCellBounds(it, px, py);
      CellOf(px, it.x);
      CellOf(py, it.y);
    }
  }

  /** Every tile the iterator hands out from `it` on, in order, until `next` reports `None`. */
  function Tiles(it: ImageIter): (ts: seq<Rect>)
    requires Valid(it)
    ensures forall i :: 0 <= i < |ts| ==>
      IsTile(ts[i], ImageWidth(it), ImageHeight(it)) && LexLe(it.x, it.y, CellX(ts[i]), CellY(ts[i]))
    decreases it.numTilesY + 1 - it.y, it.numTilesX - it.x
  {
    var (t, it') := Next(it);
    if t.None? then [] else [t.value] + Tiles(it')
  }

  /** Tiles listed in strictly increasing row-major order of their cells. */
  ghost predicate RowMajorCells(ts: seq<Rect>)
  {
    forall i, j :: 0 <= i < j < |ts| ==> LexLt(CellX(ts[i]), CellY(ts[i]), CellX(ts[j]), CellY(ts[j]))
  }

  /** The tiles come in strictly increasing row-major order of their cells. */
  lemma {:induction false} TilesRowMajor(it: ImageIter)
    requires Valid(it)
    ensures RowMajorCells(Tiles(it))
    decreases it.numTilesY + 1 - it.y, it.numTilesX - it.x
  {
    var (t, it') := Next(it);
    if t.Some? {
      var ts, rest := Tiles(it), Tiles(it');
      assert ts == [t.value] + rest;
      TilesRowMajor(it');
      assert RowMajorCells(rest);
      forall i, j | 0 <= i < j < |ts|
        ensures LexLt(CellX(ts[i]), CellY(ts[i]), CellX(ts[j]), CellY(ts[j]))
      {
        if i == 0 {
          assert ts[0] == t.value && ts[j] == rest[j - 1];
          assert LexLt(CellX(t.value), CellY(t.value), it'.x, it'.y);
          assert LexLe(it'.x, it'.y, CellX(rest[j - 1]), CellY(rest[j - 1]));
        } else {
          assert ts[i] == rest[i - 1] && ts[j] == rest[j - 1];
        }
      }
      assert RowMajorCells(ts);
    }
  }

  /** Some tile of `ts` holds pixel (px, py). */
  ghost predicate Covered(ts: seq<Rect>, px: int, py: int)
  {
    exists i :: 0 <= i < |ts| && InRect(ts[i], px, py)
  }

  /** Every pending pixel lies in some tile handed out from `it` on. */
  lemma {:induction false} TilesCover(it: ImageIter)
    requires Valid(it)
    ensures forall px, py :: Pending(it, px, py) ==> Covered(Tiles(it), px, py)
    decreases it.numTilesY + 1 - it.y, it.numTilesX - it.x
  {
    var (t, it') := Next(it);
    if t.Some? {
      var ts, rest := Tiles(it), Tiles(it');
      assert ts == [t.value] + rest;
      TilesCover(it');
      forall px, py | Pending(it, px, py)
        ensures Covered(ts, px, py)
      {
        if InRect(t.value, px, py) {
          assert InRect(ts[0], px, py);
        } else {
          assert Covered(rest, px, py);
          var i :| 0 <= i < |rest| && InRect(rest[i], px, py);
          assert InRect(ts[i + 1], px, py);
        }
      }
    }
  }

  /** In a sequence sorted by cell, two different positions hold tiles in different cells. */
  lemma DistinctCells(ts: seq<Rect>, i: int, j: int)
    requires RowMajorCells(ts)
    requires 0 <= i < |ts| && 0 <= j < |ts|
    requires CellX(ts[i]) == CellX(ts[j]) && CellY(ts[i]) == CellY(ts[j])
    ensures i == j
  {
  }

  /** A pixel of a well-placed tile lies in the tile's cell. */
  lemma InTileCell(t: Rect, w: int, h: int, px: int, py: int)
    requires IsTile(t, w, h) && InRect(t, px, py)
    ensures px / TILE == CellX(t) && py / TILE == CellY(t)
  {
    CellOf(px, CellX(t));
    CellOf(py, CellY(t));
  }

  /**
   The tiles of a `w x h` image partition it: every tile has width and height
   in 1..=128 and lies inside [0, w) x [0, h), no pixel lies in two tiles,
   and every pixel of the image lies in one.
   */
  lemma TilesPartitionImage(w: u32, h: u32)
    ensures var ts := Tiles(ForImageDimensions(w, h));
      && (forall i :: 0 <= i < |ts| ==>
            && 1 <= ts[i].width <= TILE && 1 <= ts[i].height <= TILE
            && ts[i].origin.x + ts[i].width <= w && ts[i].origin.y + ts[i].height <= h)
      && (forall i, j, px, py :: 0 <= i < |ts| && 0 <= j < |ts| && InRect(ts[i], px, py) && InRect(ts[j], px, py) ==> i == j)
      && (forall px, py :: 0 <= px < w && 0 <= py < h ==> Covered(ts, px, py))
  {
    var it := ForImageDimensions(w, h);
    var ts := Tiles(it);
    TilesRowMajor(it);
    TilesCover(it);
    forall i, j, px, py | 0 <= i < |ts| && 0 <= j < |ts| && InRect(ts[i], px, py) && InRect(ts[j], px, py)
      ensures i == j
    {
      InTileCell(ts[i], w, h, px, py);
      InTileCell(ts[j], w, h, px, py);
      DistinctCells(ts, i, j);
    }
    forall px, py | 0 <= px < w && 0 <= py < h
      ensures Covered(ts, px, py)
    {
      assert Pending(it, px, py);
    }
  }

  /** Once `next` has reported `None` it keeps doing so and the state no longer changes. */
  lemma NoneIsFinal(it: ImageIter)
    requires Valid(it) && Next(it).0.None?
    ensures Next(Next(it).1) == (None, Next(it).1)
  {
  }

  /** Columns and rows of non-empty cells: a remainder column or row counts only when non-empty. */
  function Columns(it: ImageIter): nat
  {
    it.numTilesX + (if it.endRowW > 0 then 1 else 0)
  }

  function Rows(it: ImageIter): nat
  {
    it.numTilesY + (if it.endRowH > 0 then 1 else 0)
  }

  function Max(a: int, b: int): int
  {
    if a <= b then b else a
  }

  /** Non-empty cells at or after the cursor. */
  function CellsLeft(it: ImageIter): int
  {
    if it.y < Rows(it) then (Rows(it) - 1 - it.y) * Columns(it) + Max(Columns(it) - it.x, 0) else 0
  }

  /**
   The tile count `number_of_tiles` evidently means to report: the number of
   tiles `next` hands out, ceil(w / 128) * ceil(h / 128).
   */
  function TileCount(it: ImageIter): (n: nat)
    requires Valid(it)
    ensures n == CeilDiv(ImageWidth(it), TILE) * CeilDiv(ImageHeight(it), TILE)
  {
    CeilColumns(it);
    Columns(it) * Rows(it)
  }

  function CeilDiv(a: nat, b: nat): nat
    requires b > 0
  {
    (a + b - 1) / b
  }

  lemma CeilColumns(it: ImageIter)
    requires Valid(it)
    ensures Columns(it) == CeilDiv(ImageWidth(it), TILE)
    ensures Rows(it) == CeilDiv(ImageHeight(it), TILE)
  {
    if it.endRowW > 0 {
      DivModOf(it.numTilesX + 1, TILE, it.endRowW - 1);
    } else {
      DivModOf(it.numTilesX, TILE, TILE - 1);
    }
    if it.endRowH > 0 {
      DivModOf(it.numTilesY + 1, TILE, it.endRowH - 1);
    } else {
      DivModOf(it.numTilesY, TILE, TILE - 1);
    }
  }

  /** The candidate at the cursor is non-empty exactly when its cell is among the non-empty ones. */
  lemma CurrentTileNonEmpty(it: ImageIter)
    requires Valid(it) && it.y <= it.numTilesY
    ensures (CurrentTile(it).width != 0 && CurrentTile(it).height != 0)
        <==> (it.x < Columns(it) && it.y < Rows(it))
  {
  }

  /** One cursor step passes exactly the cell it leaves. */
  lemma AdvanceCount(it: ImageIter)
    requires Valid(it) && it.y <= it.numTilesY
    ensures CellsLeft(it) == CellsLeft(Advance(it))
      + (if CurrentTile(it).width != 0 && CurrentTile(it).height != 0 then 1 else 0)
  {
    CurrentTileNonEmpty(it);
    var a := Advance(it);
    var cx, cy := Columns(it), Rows(it);
    if it.y < cy && it.x == it.numTilesX && it.y + 1 < cy {
      assert (cy - 1 - it.y) * cx == (cy - 1 - (it.y + 1)) * cx + cx;
    }
  }

  /** A call of `next` that yields a tile uses up exactly one non-empty cell; one that yields `None` finds none left. */
  lemma {:induction false} NextCount(it: ImageIter)
    requires Valid(it)
    ensures CellsLeft(it) == (if Next(it).0.Some? then 1 + CellsLeft(Next(it).1) else 0)
    decreases it.numTilesY + 1 - it.y, it.numTilesX - it.x
  {
    if it.y <= it.numTilesY {
      AdvanceCount(it);
      var current := CurrentTile(it);
      if current.width == 0 || current.height == 0 {
        assert Next(it) == Next(Advance(it));
        NextCount(Advance(it));
      }
    }
  }

  /** The iterator hands out one tile per non-empty cell at or after the cursor. */
  lemma {:induction false} TilesCount(it: ImageIter)
    requires Valid(it)
    ensures |Tiles(it)| == CellsLeft(it)
    decreases it.numTilesY + 1 - it.y, it.numTilesX - it.x
  {
    NextCount(it);
    var (t, it') := Next(it);
    if t.Some? {
      TilesCount(it');
    }
  }

  /** `TileCount` is exactly the number of tiles a fresh iterator hands out. */
  lemma TileCountExact(w: u32, h: u32)
    ensures |Tiles(ForImageDimensions(w, h))| == TileCount(ForImageDimensions(w, h))
  {
    var it := ForImageDimensions(w, h);
    TilesCount(it);
    if Rows(it) > 0 {
      assert (Rows(it) - 1) * Columns(it) + Columns(it) == Rows(it) * Columns(it);
    }
  }

  /**
   `number_of_tiles` as written is not the number of tiles handed out: for the
   renderer's own 1024 x 512 image it reports 40 against 32 tiles, and for a
   100 x 100 image it reports 0 against 1.
   */
  lemma NumberOfTilesMiscounts()
    ensures NumberOfTiles(ForImageDimensions(1024, 512)) == 40
    ensures |Tiles(ForImageDimensions(1024, 512))| == 32
    ensures NumberOfTiles(ForImageDimensions(100, 100)) == 0
    ensures |Tiles(ForImageDimensions(100, 100))| == 1
  {
    TileCountExact(1024, 512);
    TileCountExact(100, 100);
  }
}

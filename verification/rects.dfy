/**
 Integer screen coordinates, rectangles, and the iterator that lists the
 pixels of one rectangle. `src/image_types.rs` and `src/types.rs` carry two
 copies of the same `RectIter` (over `ScreenPoint` and `Point` respectively);
 both are modelled here once.
 */
module Rects {
  import opened Ints
  import opened Options

  datatype ScreenPoint = ScreenPoint(x: u32, y: u32)

  datatype Rect = Rect(origin: ScreenPoint, width: u32, height: u32)

  /** Cursor over the pixels of `rect`; `position` is relative to the origin. */
  datatype RectIter = RectIter(rect: Rect, position: ScreenPoint)

  /** Componentwise `u32` addition of points, wrapping on overflow. */
  function Add(a: ScreenPoint, b: ScreenPoint): (p: ScreenPoint)
    ensures a.x + b.x < U32_LIMIT ==> p.x == a.x + b.x
    ensures a.y + b.y < U32_LIMIT ==> p.y == a.y + b.y
  {
    ScreenPoint(Wrap32(a.x + b.x), Wrap32(a.y + b.y))
  }

  /** `Rect::iter`: a fresh cursor at relative position (0, 0). */
  function Iter(r: Rect): RectIter
  {
    RectIter(r, ScreenPoint(0, 0))
  }

  /**
   One call of `next`: report `origin + position`, then step `position`
   forward, x fastest, wrapping x to 0 and moving to the next row once x
   reaches the width. Once the row index reaches the height the iterator is
   finished: it reports nothing and stays where it is.
   */
  function Next(it: RectIter): (res: (Option<ScreenPoint>, RectIter))
    ensures res.0.None? <==> it.position.y >= it.rect.height
    ensures res.0.None? ==> res.1 == it
    ensures res.1.rect == it.rect
  {
    if it.position.y >= it.rect.height then (None, it)
    else
      var value := it.position;
      var x := Wrap32(it.position.x + 1);
      var position :=
        if x >= it.rect.width then ScreenPoint(0, it.position.y + 1)
        else ScreenPoint(x, it.position.y);
      (Some(Add(it.rect.origin, value)), RectIter(it.rect, position))
  }

  /** What `n` successive calls of `next` report, in order. */
  function Run(it: RectIter, n: nat): (out: seq<Option<ScreenPoint>>)
    ensures |out| == n
    decreases n
  {
    if n == 0 then []
    else
      var (v, it') := Next(it);
      [v] + Run(it', n - 1)
  }

  /** The `k`-th point of `r` in row-major order, or `None` past the last one. */
  function RowMajor(r: Rect, k: int): Option<ScreenPoint>
    requires r.width > 0
  {
    if 0 <= k < r.width * r.height then
      RowMajorFacts(r, k);
      Some(Add(r.origin, ScreenPoint(k % r.width, k / r.width)))
    else None
  }

  lemma RowMajorFacts(r: Rect, k: nat)
    requires r.width > 0 && k < r.width * r.height
    ensures k / r.width < r.height
  {
    MulCancel(k / r.width, r.height, r.width);
  }

  /** Linear row-major index of a cursor. */
  function Index(it: RectIter): int
  {
    it.position.y * it.rect.width + it.position.x
  }

  /** One call from a live cursor reports the point at its index and advances the index by one. */
  lemma StepIndex(it: RectIter)
    requires it.rect.width > 0 && it.position.x < it.rect.width
    requires it.position.y < it.rect.height
    ensures Next(it).0 == RowMajor(it.rect, Index(it))
    ensures Next(it).1.position.x < it.rect.width
    ensures Index(Next(it).1) == Index(it) + 1
  {
    StepReports(it);
    StepAdvances(it);
  }

  lemma StepReports(it: RectIter)
    requires it.rect.width > 0 && it.position.x < it.rect.width
    requires it.position.y < it.rect.height
    ensures Next(it).0 == RowMajor(it.rect, Index(it))
  {
    var r := it.rect;
    var y, x := it.position.y, it.position.x;
    var m := Index(it);
    DivModOf(y, r.width, x);
    IndexInRange(y, x, r.width, r.height);
    assert RowMajor(r, m) == Some(Add(r.origin, ScreenPoint(x, y)));
  }

  lemma StepAdvances(it: RectIter)
    requires it.rect.width > 0 && it.position.x < it.rect.width
    requires it.position.y < it.rect.height
    ensures Next(it).1.position.x < it.rect.width
    ensures Index(Next(it).1) == Index(it) + 1
  {
    var y: int, x: int, w: int := it.position.y, it.position.x, it.rect.width;
    assert Wrap32(x + 1) == x + 1;
    if x + 1 >= w {
      assert Next(it).1.position == ScreenPoint(0, y + 1);
      assert (y + 1) * w == y * w + w;
    } else {
      assert Next(it).1.position == ScreenPoint(x + 1, y);
    }
  }

  lemma IndexInRange(y: nat, x: nat, w: nat, h: nat)
    requires x < w && y < h
    ensures y * w + x < w * h
  {
    assert y * w + x < (y + 1) * w;
    MulMono(y + 1, h, w);
  }

  lemma MulMono(a: int, b: int, w: int)
    requires w >= 0 && a <= b
    ensures a * w <= b * w
  {
  }

  /**
   From any cursor inside a rectangle of positive width, the calls report the
   row-major points from the cursor's linear index onwards, then `None`.
   */
  lemma {:induction false} RunFrom(it: RectIter, n: nat)
    requires it.rect.width > 0
    requires it.position.x < it.rect.width
    ensures forall k :: 0 <= k < n ==> Run(it, n)[k] == RowMajor(it.rect, Index(it) + k)
    decreases n
  {
    if n > 0 {
      var (v, it') := Next(it);
      assert Run(it, n) == [v] + Run(it', n - 1);
      if it.position.y >= it.rect.height {
        MulMono(it.rect.height, it.position.y, it.rect.width);
        RunFrom(it, n - 1);
      } else {
        StepIndex(it);
        RunFrom(it', n - 1);
      }
    }
  }

  /**
   A rectangle of positive width yields exactly `width * height` points,
   `origin + (k % width, k / width)` for k = 0, 1, ... (x fastest, then y),
   and `None` on every call after that.
   */
  lemma IterYieldsRowMajor(r: Rect, n: nat)
    requires r.width > 0
    ensures Run(Iter(r), n) == seq(n, k => RowMajor(r, k))
  {
    RunFrom(Iter(r), n);
  }

  /** Every reported point is the origin plus an offset inside the rectangle. */
  lemma RowMajorInRect(r: Rect, k: nat)
    requires r.width > 0 && k < r.width * r.height
    ensures RowMajor(r, k).Some?
    ensures exists i: u32, j: u32 :: i < r.width && j < r.height
                                && RowMajor(r, k).value == Add(r.origin, ScreenPoint(i, j))
  {
    RowMajorFacts(r, k);
    var i: u32, j: u32 := k % r.width, k / r.width;
    assert RowMajor(r, k).value == Add(r.origin, ScreenPoint(i, j));
  }

  /** Once `next` has reported `None`, every later call reports `None` too. */
  lemma {:induction false} NoneIsFinal(it: RectIter, n: nat)
    requires Next(it).0.None?
    ensures Run(it, n) == seq(n, k => None)
    decreases n
  {
    if n > 0 {
      NoneIsFinal(it, n - 1);
    }
  }

  /**
   The zero-width edge case, as written: with width 0 the x counter resets on
   every call, so the iterator still yields `height` points, all at relative
   x-offset 0, one per row.
   */
  lemma {:induction false} ZeroWidthRun(it: RectIter, n: nat)
    requires it.rect.width == 0 && it.position.x == 0
    ensures forall k :: 0 <= k < n ==>
      Run(it, n)[k] == ColumnPoint(it.rect, it.position.y + k)
    decreases n
  {
    if n > 0 {
      var (v, it') := Next(it);
      assert Run(it, n) == [v] + Run(it', n - 1);
      ZeroWidthRun(it', n - 1);
    }
  }

  /** The `k`-th point of a zero-width rectangle as written, or `None` past the last one. */
  function ColumnPoint(r: Rect, k: int): Option<ScreenPoint>
  {
    if 0 <= k < r.height then Some(Add(r.origin, ScreenPoint(0, k))) else None
  }

  /** With width 0, `Rect::iter` yields `(origin.x, origin.y + j)` for j < height, then `None`. */
  lemma ZeroWidthYieldsColumn(r: Rect, n: nat)
    requires r.width == 0
    ensures Run(Iter(r), n) == seq(n, k => ColumnPoint(r, k))
  {
    ZeroWidthRun(Iter(r), n);
  }
}

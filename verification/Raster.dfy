/** Pixel slots of a raster whose lines are `stride` slots apart and show `w` active pixels on `h` lines. */
module Raster {
  import opened Common

  /** Slot `p`, counted from the first pixel, holds an active pixel. */
  predicate Active(p: int, w: int, h: int, stride: int) {
    && 0 <= p
    && 0 < w <= stride
    && p / stride < h
    && p % stride < w
  }

  /** Place `k` of a memory shows an active pixel of the raster whose first pixel is at `base`. */
  predicate InRect(k: int, base: int, w: int, h: int, stride: int) {
    Active(k - base, w, h, stride)
  }

  function Slot(row: int, col: int, stride: int): int { row * stride + col }

  /** The slot after the last active pixel, 0 when there is none. */
  function Extent(w: int, h: int, stride: int): int {
    if 0 < w && 0 < h then Slot(h - 1, w, stride) else 0
  }

  /** A rectangle of `w` by `h` pixels whose first pixel is word `base` lies in a frame with lines of `stride` words. */
  predicate InFrame(frameLen: int, base: int, w: int, h: int, stride: int) {
    0 < w && 0 < h ==> 0 <= base && w <= stride && base + Extent(w, h, stride) <= frameLen
  }

  lemma SlotSplits(row: int, col: int, stride: int)
    requires 0 <= col < stride
    ensures Slot(row, col, stride) / stride == row
    ensures Slot(row, col, stride) % stride == col
  {
    var p := Slot(row, col, stride);
    assert p == (p / stride) * stride + p % stride;
    if p / stride < row {
      ProductsInOrder(p / stride + 1, row, stride);
    } else if row < p / stride {
      ProductsInOrder(row + 1, p / stride, stride);
    }
  }

  /** Slots and coordinates determine each other. */
  lemma {:induction false} SlotIsActive(row: int, col: int, w: int, h: int, stride: int)
    requires w <= stride && 0 <= row < h && 0 <= col < w
    ensures Active(Slot(row, col, stride), w, h, stride)
    ensures Slot(row, col, stride) < Extent(w, h, stride)
    ensures Slot(row, col, stride) / stride == row && Slot(row, col, stride) % stride == col
  {
    SlotSplits(row, col, stride);
    ProductsInOrder(row, h - 1, stride);
    ProductsInOrder(0, row, stride);
  }

  lemma ActiveIsSlot(p: int, w: int, h: int, stride: int)
    requires Active(p, w, h, stride)
    ensures 0 <= p / stride < h && 0 <= p % stride < w
    ensures p == Slot(p / stride, p % stride, stride)
    ensures p < Extent(w, h, stride)
  {
    ProductsInOrder(p / stride, h - 1, stride);
  }

  lemma ExtentInLines(w: int, h: int, stride: int)
    requires 0 < h && w <= stride
    ensures Extent(w, h, stride) <= Slot(h, 0, stride) || w <= 0
  {
    assert Slot(h, 0, stride) == Slot(h - 1, 0, stride) + stride;
  }

  /** No active pixel lies in the padding at the end of a line. */
  lemma PaddingIsEmpty(p: int, row: int, w: int, h: int, stride: int)
    requires w <= stride && 0 <= row < h && 0 <= w
    requires Active(p, w, h, stride)
    ensures p < Slot(row, w, stride) <==> p < Slot(row + 1, 0, stride)
  {
    ActiveIsSlot(p, w, h, stride);
    if p / stride < row {
      ProductsInOrder(p / stride + 1, row, stride);
    } else if row < p / stride {
      ProductsInOrder(row + 1, p / stride, stride);
    }
  }

  lemma NextSlot(row: int, col: int, stride: int)
    ensures Slot(row, col + 1, stride) == Slot(row, col, stride) + 1
    ensures Slot(row, stride, stride) == Slot(row + 1, 0, stride)
  {
  }

  /** Pixel (x, y) of a rectangle whose corner is at (x0, y0). */
  lemma RectSlot(x0: int, y0: int, x: int, y: int, stride: int)
    ensures Slot(y0, x0, stride) + Slot(y, x, stride) == Slot(y0 + y, x0 + x, stride)
  {
    assert (y0 + y) * stride == y0 * stride + y * stride;
  }

  /** The places of a rectangle that does not run over the end of a line are those of its coordinates. */
  lemma RectCoordinates(k: int, x: int, y: int, w: int, h: int, stride: int)
    requires InRect(k, Slot(y, x, stride), w, h, stride)
    requires 0 <= x && x + w <= stride
    ensures 0 < stride && x <= k % stride < x + w && y <= k / stride < y + h
  {
    var d := k - Slot(y, x, stride);
    ActiveIsSlot(d, w, h, stride);
    RectSlot(x, y, d % stride, d / stride, stride);
    SlotSplits(y + d / stride, x + d % stride, stride);
  }
}

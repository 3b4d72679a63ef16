/** The windowing arithmetic of the virtual list: of `len` rows of equal
    height, only those from `startIndex` to `endIndex` are rendered, shifted
    down by `offsetY`, inside a spacer `totalHeight` tall. Pixel quantities are
    integers here. */
module VirtualList {

  /** `Math.floor(a / b)` for a positive divisor; Dafny's division rounds
      down for positive divisors. */
  function FloorDiv(a: int, b: int): (q: int)
    requires b > 0
    ensures q * b <= a < (q + 1) * b
  {
    a / b
  }

  /** `Math.ceil(a / b)` for a positive divisor. */
  function CeilDiv(a: int, b: int): (q: int)
    requires b > 0
    ensures (q - 1) * b < a <= q * b
  {
    -((-a) / b)
  }

  /** `Array.prototype.slice(begin, end)`: negative bounds count from the end,
      bounds are clipped to the array, and crossed bounds give nothing. */
  function JsSlice<T>(items: seq<T>, begin: int, end: int): (r: seq<T>)
    ensures 0 <= begin <= end <= |items| ==> r == items[begin..end]
    ensures end <= begin && 0 <= begin && 0 <= end ==> r == []
  {
    var len := |items|;
    var b := if begin < 0 then (if len + begin < 0 then 0 else len + begin) else (if begin < len then begin else len);
    var e := if end < 0 then (if len + end < 0 then 0 else len + end) else (if end < len then end else len);
    if b < e then items[b..e] else []
  }

  datatype Window = Window(totalHeight: int, startIndex: int, endIndex: int, offsetY: int)

  /** The four memoised quantities, from the row count, the viewport and row
      heights, the overscan and the scroll position. */
  function ComputeWindow(len: nat, height: int, itemHeight: int, overscan: int, scrollTop: int): (w: Window)
    requires itemHeight > 0
    ensures w.totalHeight == len * itemHeight
    ensures w.startIndex >= 0
    ensures scrollTop < 0 ==> w.startIndex == 0
    ensures scrollTop >= 0 ==> w.offsetY <= scrollTop < w.offsetY + itemHeight
    ensures w.offsetY == w.startIndex * itemHeight
    ensures w.endIndex <= len - 1
    ensures w.endIndex <= w.startIndex + CeilDiv(height, itemHeight) + overscan
    ensures w.endIndex == len - 1 || w.endIndex == w.startIndex + CeilDiv(height, itemHeight) + overscan
  {
    var fl := FloorDiv(scrollTop, itemHeight);
    var start := if fl < 0 then 0 else fl;
    var visibleCount := CeilDiv(height, itemHeight);
    var last := start + visibleCount + overscan;
    var end := if len - 1 < last then len - 1 else last;
    Window(len * itemHeight, start, end, start * itemHeight)
  }

  /** `items.slice(startIndex, endIndex + 1)`. */
  function VisibleItems<T>(items: seq<T>, w: Window): seq<T> {
    JsSlice(items, w.startIndex, w.endIndex + 1)
  }

  /** The rendered rows: the `i`-th one is row `startIndex + i`, and there are
      at most `ceil(height / itemHeight) + overscan + 1` of them. */
  lemma VisibleRows<T>(items: seq<T>, height: int, itemHeight: int, overscan: int, scrollTop: int)
    requires itemHeight > 0 && height >= 0 && overscan >= 0
    ensures var w := ComputeWindow(|items|, height, itemHeight, overscan, scrollTop);
            var vis := VisibleItems(items, w);
            && |vis| <= CeilDiv(height, itemHeight) + overscan + 1
            && (forall i :: 0 <= i < |vis| ==> w.startIndex + i < |items| && vis[i] == items[w.startIndex + i])
  {
  }

  /** Every row that the viewport overlaps at least partly is rendered. */
  lemma ViewportCovered(len: nat, height: int, itemHeight: int, overscan: int, scrollTop: int, row: int)
    requires itemHeight > 0 && overscan >= 0 && scrollTop >= 0
    requires 0 <= row < len
    requires scrollTop < (row + 1) * itemHeight && row * itemHeight < scrollTop + height
    ensures var w := ComputeWindow(len, height, itemHeight, overscan, scrollTop);
            w.startIndex <= row <= w.endIndex
  {
    var w := ComputeWindow(len, height, itemHeight, overscan, scrollTop);
    var s := w.startIndex;
    var c := CeilDiv(height, itemHeight);
    assert s * itemHeight <= scrollTop;
    LessTimes(s, row + 1, itemHeight);
    assert row * itemHeight < (s + 1) * itemHeight + c * itemHeight;
    assert (s + 1) * itemHeight + c * itemHeight == (s + 1 + c) * itemHeight;
    LessTimes(row, s + 1 + c, itemHeight);
  }

  /** Cancelling a positive factor from a strict inequality. */
  lemma LessTimes(a: int, b: int, m: int)
    requires m > 0 && a * m < b * m
    ensures a < b
  {
  }

  /** Scrolling down by `k` rows moves the window start by `k`. */
  lemma ScrollByRows(len: nat, height: int, itemHeight: int, overscan: int, scrollTop: int, k: nat)
    requires itemHeight > 0 && scrollTop >= 0
    ensures ComputeWindow(len, height, itemHeight, overscan, scrollTop + k * itemHeight).startIndex
            == ComputeWindow(len, height, itemHeight, overscan, scrollTop).startIndex + k
  {
    var q := FloorDiv(scrollTop, itemHeight);
    ShiftBracket(scrollTop, itemHeight, q, k);
    FloorUnique(scrollTop + k * itemHeight, itemHeight, q + k);
    assert q >= 0 by {
      LessTimes(-1, q, itemHeight);
    }
    assert FloorDiv(scrollTop + k * itemHeight, itemHeight) == q + k;
  }

  lemma ShiftBracket(a: int, b: int, q: int, k: int)
    requires q * b <= a < (q + 1) * b
    ensures (q + k) * b <= a + k * b < (q + k + 1) * b
  {
    assert (q + k) * b == q * b + k * b;
    assert (q + k + 1) * b == (q + 1) * b + k * b;
  }

  /** The quotient is the one integer whose multiples bracket the dividend. */
  lemma FloorUnique(a: int, b: int, q: int)
    requires b > 0 && q * b <= a < (q + 1) * b
    ensures a / b == q
  {
    var d := FloorDiv(a, b);
    LessTimes(d, q + 1, b);
    LessTimes(q, d + 1, b);
  }

  /** A list that is not scrolled renders its first row, and the 1000-row list
      of 30-pixel rows in a 300-pixel viewport renders 15 rows. */
  lemma FirstWindowSamples()
    ensures ComputeWindow(100, 200, 20, 4, 0).startIndex == 0
    ensures var w := ComputeWindow(1000, 300, 30, 4, 0);
            w.startIndex == 0 && w.endIndex == 14
  {
  }

  /** The numbers in the labels "Item 1" to "Item 100" of a 100-row list. */
  function LabelNumbers(): (r: seq<int>)
    ensures |r| == 100 && forall i :: 0 <= i < |r| ==> r[i] == i + 1
  {
    seq(100, i => i + 1)
  }

  /** After scrolling the 100-row list of 20-pixel rows to 200 pixels, rows 10
      to 24 are rendered, so the row labelled "Item 10" (index 9) is not. */
  lemma ScrolledWindowSample()
    ensures var w := ComputeWindow(100, 200, 20, 4, 200);
            w.startIndex == 10 && w.endIndex == 24 && w.offsetY == 200
    ensures 10 !in VisibleItems(LabelNumbers(), ComputeWindow(100, 200, 20, 4, 200))
  {
    var vis := VisibleItems(LabelNumbers(), ComputeWindow(100, 200, 20, 4, 200));
    assert vis == LabelNumbers()[10..25];
    forall k | 0 <= k < |vis|
      ensures vis[k] != 10
    {
      assert vis[k] == LabelNumbers()[10 + k];
    }
  }

  /** At that scroll position the rendered labels are "Item 11" to "Item 25",
      in order, with "Item 11" first. */
  lemma ScrolledWindowLabels()
    ensures var vis := VisibleItems(LabelNumbers(), ComputeWindow(100, 200, 20, 4, 200));
            |vis| == 15 && vis[0] == 11 && forall k :: 0 <= k < |vis| ==> vis[k] == k + 11
  {
    var vis := VisibleItems(LabelNumbers(), ComputeWindow(100, 200, 20, 4, 200));
    assert vis == LabelNumbers()[10..25];
  }
}

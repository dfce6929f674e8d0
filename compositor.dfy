/** `processSegmentation` as in-place array code: the output buffer is an
    `array<int>` that the pass rewrites, the live frame an `array<int>` it only
    reads, the mask a sequence. Each method is proved against the functions
    of `CompositorSpec`; what those functions mean is proved in
    `CompositorLemmas`. */
module Compositor {
  import opened Arith
  import opened CompositorSpec

  /** Scans the window column by column for a nonzero label. The `break`
      leaves only the inner loop; the flag is never reset, so the result is
      whether any pixel of the window is labelled. */
  method ScanWindow(mask: seq<int>, w: int, h: int, win: Window) returns (found: bool)
    requires ValidMask(mask, w, h) && InFrame(win, w, h)
    ensures found == Contaminated(mask, w, h, win)
  {
    found := false;
    var i := win.xMin;
    while i < win.xMax
      invariant win.xMin <= i <= win.xMax
      invariant found == LabelBefore(mask, w, h, win, i, win.yMin)
    {
      var j := win.yMin;
      while j < win.yMax
        invariant win.yMin <= j <= win.yMax
        invariant found == LabelBefore(mask, w, h, win, i, j)
      {
        var offset := j * w + i;
        OffsetOf(w, h, i, j);
        if mask[offset] != 0 {
          found := true;
          assert MaskAt(mask, w, h, i, j) != 0;
          assert LabelBefore(mask, w, h, win, i + 1, win.yMin);
          break;
        }
        j := j + 1;
      }
      i := i + 1;
    }
    assert LabelBefore(mask, w, h, win, win.xMax, win.yMin) == Contaminated(mask, w, h, win);
  }

  /** A labelled pixel inside the window among the columns before `i` and
      the rows before `j` of column `i`: what the scan has seen so far. */
  ghost predicate LabelBefore(mask: seq<int>, w: int, h: int, win: Window, i: int, j: int)
    requires ValidMask(mask, w, h)
  {
    exists a, b :: 0 <= a < w && 0 <= b < h && Covers(win, a, b) && (a < i || (a == i && b < j))
      && MaskAt(mask, w, h, a, b) != 0
  }

  /** Copies the live red, green and blue bytes into every pixel of the
      window and makes it opaque. */
  method CopyWindow(data: array<int>, live: array<int>, w: int, h: int, win: Window)
    requires w > 0 && h > 0 && data.Length == 4 * (w * h) && live.Length == data.Length
    requires data != live && InFrame(win, w, h)
    modifies data
    ensures data[..] == Fill(old(data[..]), w, win, LiveOpaque(live[..]))
  {
    ghost var d0 := data[..];
    ghost var src := LiveOpaque(live[..]);
    var i := win.xMin;
    while i < win.xMax
      invariant win.xMin <= i <= win.xMax
      invariant FilledUpTo(data[..], d0, src, w, win, i, win.yMin)
    {
      var j := win.yMin;
      while j < win.yMax
        invariant win.yMin <= j <= win.yMax
        invariant FilledUpTo(data[..], d0, src, w, win, i, j)
      {
        var offset := j * w + i;
        OffsetOf(w, h, i, j);
        ghost var before := data[..];
        data[offset * 4] := live[offset * 4];
        data[offset * 4 + 1] := live[offset * 4 + 1];
        data[offset * 4 + 2] := live[offset * 4 + 2];
        data[offset * 4 + 3] := 255;
        PixelWritten(before, data[..], d0, src, w, h, win, i, j);
        j := j + 1;
      }
      ColumnFinished(data[..], d0, src, w, win, i);
      i := i + 1;
    }
    WindowFinished(data[..], d0, src, w, win);
  }

  /** Paints every pixel of the window opaque red (the debug path). */
  method PaintWindow(data: array<int>, w: int, h: int, win: Window)
    requires w > 0 && h > 0 && data.Length == 4 * (w * h) && InFrame(win, w, h)
    modifies data
    ensures data[..] == Fill(old(data[..]), w, win, Highlight(data.Length))
  {
    ghost var d0 := data[..];
    ghost var src := Highlight(data.Length);
    var i := win.xMin;
    while i < win.xMax
      invariant win.xMin <= i <= win.xMax
      invariant FilledUpTo(data[..], d0, src, w, win, i, win.yMin)
    {
      var j := win.yMin;
      while j < win.yMax
        invariant win.yMin <= j <= win.yMax
        invariant FilledUpTo(data[..], d0, src, w, win, i, j)
      {
        var offset := j * w + i;
        OffsetOf(w, h, i, j);
        ghost var before := data[..];
        data[offset * 4] := 255;
        data[offset * 4 + 1] := 0;
        data[offset * 4 + 2] := 0;
        data[offset * 4 + 3] := 255;
        PixelWritten(before, data[..], d0, src, w, h, win, i, j);
        j := j + 1;
      }
      ColumnFinished(data[..], d0, src, w, win, i);
      i := i + 1;
    }
    WindowFinished(data[..], d0, src, w, win);
  }

  /** Pixel of byte `k` lies in the window and comes before (i, j) in the
      column-by-column order of the write loops. */
  predicate DoneBefore(win: Window, w: int, i: int, j: int, k: int)
    requires w > 0
  {
    var a, b := ColumnOf(k, w), RowOf(k, w);
    win.yMin <= b < win.yMax && (win.xMin <= a < i || (a == i && b < j))
  }

  /** `r` is `d0` with the pixels written so far taken from `src`. */
  ghost predicate FilledUpTo(r: seq<int>, d0: seq<int>, src: seq<int>, w: int, win: Window, i: int, j: int)
    requires w > 0
  {
    |r| == |d0| == |src|
    && forall k :: 0 <= k < |d0| ==> r[k] == if DoneBefore(win, w, i, j, k) then src[k] else d0[k]
  }

  /** Writing the four bytes of pixel (i, j) advances the write loops by one pixel. */
  lemma PixelWritten(before: seq<int>, after: seq<int>, d0: seq<int>, src: seq<int>,
                     w: int, h: int, win: Window, i: int, j: int)
    requires w > 0 && h > 0 && |before| == 4 * (w * h) && InFrame(win, w, h) && Covers(win, i, j)
    requires FilledUpTo(before, d0, src, w, win, i, j)
    requires |after| == |before|
    requires forall k :: 0 <= k < |after| ==>
      after[k] == if k / 4 == j * w + i then src[k] else before[k]
    ensures FilledUpTo(after, d0, src, w, win, i, j + 1)
  {
    var p := j * w + i;
    OffsetOf(w, h, i, j);
    forall k | 0 <= k < |d0|
      ensures after[k] == if DoneBefore(win, w, i, j + 1, k) then src[k] else d0[k]
    {
      var q := k / 4;
      if q != p {
        CoordinatesOf(w, h, q);
        assert ColumnOf(k, w) != i || RowOf(k, w) != j;
      }
    }
  }

  lemma ColumnFinished(r: seq<int>, d0: seq<int>, src: seq<int>, w: int, win: Window, i: int)
    requires w > 0 && win.xMin <= i
    requires FilledUpTo(r, d0, src, w, win, i, win.yMax)
    ensures FilledUpTo(r, d0, src, w, win, i + 1, win.yMin)
  {
    forall k | 0 <= k < |d0|
      ensures DoneBefore(win, w, i, win.yMax, k) == DoneBefore(win, w, i + 1, win.yMin, k)
    {
    }
  }

  lemma WindowFinished(r: seq<int>, d0: seq<int>, src: seq<int>, w: int, win: Window)
    requires w > 0 && FilledUpTo(r, d0, src, w, win, win.xMax, win.yMin)
    ensures r == Fill(d0, w, win, src)
  {
    forall k | 0 <= k < |d0|
      ensures r[k] == Fill(d0, w, win, src)[k]
    {
      assert DoneBefore(win, w, win.xMax, win.yMin, k) == CoversByte(win, w, k);
    }
  }

  /** The body of the two outer loops for the sample point (x, y): clamp the
      probe window, scan it, then copy, paint or leave it. */
  method ProcessSample(data: array<int>, live: array<int>, mask: seq<int>, w: int, h: int, cfg: Config, x: int, y: int)
    requires ValidConfig(cfg) && ValidMask(mask, w, h)
    requires data.Length == 4 * (w * h) && live.Length == data.Length && data != live
    requires 0 < x < w && 0 < y < h
    modifies data
    ensures data[..] == Step(old(data[..]), Frame(w, h, live[..], mask), cfg, Sample(x, y))
  {
    ghost var f := Frame(w, h, live[..], mask);
    var yMin := y - cfg.offset;
    yMin := if yMin < 0 then 0 else yMin;
    var yMax := y + cfg.offset;
    yMax := if yMax > h then h else yMax;
    var xMin := x - cfg.offset;
    xMin := if xMin < 0 then 0 else xMin;
    var xMax := x + cfg.offset;
    xMax := if xMax > w then w else xMax;
    var win := Window(xMin, xMax, yMin, yMax);
    assert win == ProbeWindow(f, cfg, Sample(x, y));

    var found := ScanWindow(mask, w, h, win);
    if !found {
      CopyWindow(data, live, w, h, win);
    } else if cfg.debug {
      PaintWindow(data, w, h, win);
    }
    assert data[..] == Step(old(data[..]), f, cfg, Sample(x, y));
  }

  /** One compositing pass over the output buffer `data`, visiting the sample
      points x-outer, y-inner exactly as the two outer loops of the source. */
  method ProcessSegmentation(data: array<int>, live: array<int>, mask: seq<int>, w: int, h: int, cfg: Config)
    requires ValidConfig(cfg) && ValidMask(mask, w, h)
    requires data.Length == 4 * (w * h) && live.Length == data.Length && data != live
    modifies data
    ensures data[..] == Composite(old(data[..]), Frame(w, h, live[..], mask), cfg)
  {
    ghost var f := Frame(w, h, live[..], mask);
    ghost var goal := Composite(old(data[..]), f, cfg);
    ghost var ys := Grid(cfg.resolution, h, cfg.resolution);
    var x := cfg.resolution;
    while x < w
      invariant x > 0
      invariant ValidFrame(f) && |data[..]| == |f.live|
      invariant Apply(data[..], f, cfg, Sweep(Grid(cfg.resolution, w, x), ys)) == goal
      decreases w - x
    {
      ghost var rest := Sweep(Grid(cfg.resolution, w, x + cfg.resolution), ys);
      SweepFirstColumn(x, cfg.resolution, w, ys);
      var y := cfg.resolution;
      while y < h
        invariant y > 0
        invariant ValidFrame(f) && |data[..]| == |f.live|
        invariant Apply(data[..], f, cfg, Column(x, Grid(cfg.resolution, h, y)) + rest) == goal
        decreases h - y
      {
        ghost var before, y0 := data[..], y;
        ProcessSample(data, live, mask, w, h, cfg, x, y);
        y := y + cfg.resolution;
        NextSample(before, data[..], f, cfg, x, y0, y, h, rest, goal);
      }
      ColumnEnd(x, cfg.resolution, h, y, rest);
      x := x + cfg.resolution;
    }
    SweepEnd(cfg.resolution, w, x, ys);
  }

  lemma SweepFirstColumn(x: int, step: int, bound: int, ys: seq<int>)
    requires step > 0 && x < bound
    ensures Sweep(Grid(step, bound, x), ys) == Column(x, ys) + Sweep(Grid(step, bound, x + step), ys)
  {
    var g := Grid(step, bound, x);
    assert g == [x] + Grid(step, bound, x + step);
    assert g[1..] == Grid(step, bound, x + step);
  }

  /** Processing sample (x, y) turns the remaining work of the inner loop
      into the remaining work of its next iteration. */
  lemma NextSample(before: seq<int>, after: seq<int>, f: Frame, cfg: Config, x: int, y: int, yNext: int, h: int,
                   rest: seq<Sample>, goal: seq<int>)
    requires ValidFrame(f) && ValidConfig(cfg) && |before| == |f.live| && y < h && yNext == y + cfg.resolution
    requires Apply(before, f, cfg, Column(x, Grid(cfg.resolution, h, y)) + rest) == goal
    requires after == Step(before, f, cfg, Sample(x, y))
    ensures Apply(after, f, cfg, Column(x, Grid(cfg.resolution, h, yNext)) + rest) == goal
  {
    var tail := Column(x, Grid(cfg.resolution, h, y + cfg.resolution)) + rest;
    ColumnNext(x, cfg.resolution, h, y, rest);
    ApplyCons(before, f, cfg, Sample(x, y), tail);
  }

  lemma ColumnNext(x: int, step: int, bound: int, y: int, rest: seq<Sample>)
    requires step > 0 && y < bound
    ensures Column(x, Grid(step, bound, y)) + rest
         == [Sample(x, y)] + (Column(x, Grid(step, bound, y + step)) + rest)
  {
    var g := Grid(step, bound, y);
    assert g == [y] + Grid(step, bound, y + step);
    assert g[1..] == Grid(step, bound, y + step);
  }

  lemma ColumnEnd(x: int, step: int, bound: int, y: int, rest: seq<Sample>)
    requires step > 0 && y >= bound
    ensures Column(x, Grid(step, bound, y)) + rest == rest
  {
  }

  lemma SweepEnd(step: int, bound: int, x: int, ys: seq<int>)
    requires step > 0 && x >= bound
    ensures Sweep(Grid(step, bound, x), ys) == []
  {
  }

  lemma ApplyCons(d: seq<int>, f: Frame, cfg: Config, s: Sample, ss: seq<Sample>)
    requires ValidFrame(f) && ValidConfig(cfg) && |d| == |f.live|
    ensures Apply(d, f, cfg, [s] + ss) == Apply(Step(d, f, cfg, s), f, cfg, ss)
  {
    assert ([s] + ss)[0] == s;
    assert ([s] + ss)[1..] == ss;
  }
}

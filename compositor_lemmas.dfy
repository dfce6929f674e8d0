/** What one compositing pass does, proved about `CompositorSpec.Composite`
    and therefore, through `Compositor.ProcessSegmentation`'s postcondition,
    about the in-place code. */
module CompositorLemmas {
  import opened Arith
  import opened CompositorSpec

  // ---------------------------------------------------------------------
  // The sample points

  lemma {:induction false} GridMembers(step: int, bound: int, start: int, v: int)
    requires step > 0
    ensures v in Grid(step, bound, start) <==> start <= v < bound && (v - start) % step == 0
    decreases bound - start
  {
    if start < bound {
      GridMembers(step, bound, start + step, v);
      ModShift(v - start - step, step);
      assert Grid(step, bound, start) == [start] + Grid(step, bound, start + step);
      if start < v && (v - start) % step == 0 {
        MultipleAtLeast(v - start, step);
      }
    }
  }

  lemma {:induction false} GridIncreasing(step: int, bound: int, start: int)
    requires step > 0
    ensures forall a :: 0 <= a < |Grid(step, bound, start)| ==> start <= Grid(step, bound, start)[a]
    ensures forall a, b :: 0 <= a < b < |Grid(step, bound, start)| ==>
      Grid(step, bound, start)[a] < Grid(step, bound, start)[b]
    decreases bound - start
  {
    if start < bound {
      GridIncreasing(step, bound, start + step);
    }
  }

  lemma {:induction false} ColumnShape(x: int, ys: seq<int>)
    ensures |Column(x, ys)| == |ys|
    ensures forall a :: 0 <= a < |ys| ==> Column(x, ys)[a] == Sample(x, ys[a])
  {
    if ys != [] {
      ColumnShape(x, ys[1..]);
    }
  }

  lemma {:induction false} SweepMembers(xs: seq<int>, ys: seq<int>, s: Sample)
    ensures s in Sweep(xs, ys) <==> s.x in xs && s.y in ys
  {
    if xs != [] {
      SweepMembers(xs[1..], ys, s);
      ColumnShape(xs[0], ys);
      if s.y in ys {
        var a :| 0 <= a < |ys| && ys[a] == s.y;
        assert s.x == xs[0] ==> Column(xs[0], ys)[a] == s;
      }
      assert xs == [xs[0]] + xs[1..];
    }
  }

  /** The sample points are exactly the points whose coordinates are positive
      multiples of the resolution inside the frame. */
  lemma SamplePoints(f: Frame, cfg: Config, s: Sample)
    requires ValidConfig(cfg)
    ensures s in Samples(f, cfg) <==> IsSamplePoint(f, cfg, s)
  {
    var r := cfg.resolution;
    SweepMembers(Grid(r, f.width, r), Grid(r, f.height, r), s);
    GridMembers(r, f.width, r, s.x);
    GridMembers(r, f.height, r, s.y);
    ModShift(s.x - r, r);
    ModShift(s.y - r, r);
    if 0 < s.x && s.x % r == 0 { MultipleAtLeast(s.x, r); }
    if 0 < s.y && s.y % r == 0 { MultipleAtLeast(s.y, r); }
  }

  /** A frame no wider or no taller than one grid pitch has no sample point,
      and only such a frame. */
  lemma NoSamplePoints(f: Frame, cfg: Config)
    requires ValidConfig(cfg)
    ensures Samples(f, cfg) == [] <==> f.width <= cfg.resolution || f.height <= cfg.resolution
  {
    var r := cfg.resolution;
    if r < f.width && r < f.height {
      SamplePoints(f, cfg, Sample(r, r));
      assert r % r == 0;
    } else if f.height <= r {
      SweepNoRows(Grid(r, f.width, r));
    }
  }

  lemma {:induction false} SweepNoRows(xs: seq<int>)
    ensures Sweep(xs, []) == []
  {
    if xs != [] {
      SweepNoRows(xs[1..]);
    }
  }

  lemma {:induction false} SweepOrdered(xs: seq<int>, ys: seq<int>)
    requires forall a, b :: 0 <= a < b < |xs| ==> xs[a] < xs[b]
    requires forall a, b :: 0 <= a < b < |ys| ==> ys[a] < ys[b]
    ensures forall m, n :: 0 <= m < n < |Sweep(xs, ys)| ==> Before(Sweep(xs, ys)[m], Sweep(xs, ys)[n])
  {
    if xs != [] {
      var col, rest := Column(xs[0], ys), Sweep(xs[1..], ys);
      SweepOrdered(xs[1..], ys);
      ColumnShape(xs[0], ys);
      forall m, n | 0 <= m < n < |col + rest|
        ensures Before((col + rest)[m], (col + rest)[n])
      {
        if n >= |col| && m < |col| {
          var s := rest[n - |col|];
          assert s in rest;
          SweepMembers(xs[1..], ys, s);
          var a :| 0 <= a < |xs[1..]| && xs[1..][a] == s.x;
          assert xs[0] < xs[a + 1];
        }
      }
    }
  }

  /** The pass visits the samples in x-outer, y-inner order, each once. */
  lemma SamplesOrdered(f: Frame, cfg: Config)
    requires ValidConfig(cfg)
    ensures forall m, n :: 0 <= m < n < |Samples(f, cfg)| ==> Before(Samples(f, cfg)[m], Samples(f, cfg)[n])
  {
    var r := cfg.resolution;
    GridIncreasing(r, f.width, r);
    GridIncreasing(r, f.height, r);
    SweepOrdered(Grid(r, f.width, r), Grid(r, f.height, r));
  }

  // ---------------------------------------------------------------------
  // The probe window

  /** Every window of a sample point lies inside the frame, and every byte
      the copy and paint loops touch lies inside both buffers. */
  lemma WindowInBounds(f: Frame, cfg: Config, s: Sample, i: int, j: int, c: int)
    requires ValidFrame(f) && ValidConfig(cfg) && IsSamplePoint(f, cfg, s)
    requires Covers(ProbeWindow(f, cfg, s), i, j) && 0 <= c < 4
    ensures InFrame(ProbeWindow(f, cfg, s), f.width, f.height)
    ensures 0 <= j * f.width + i < |f.mask|
    ensures 0 <= (j * f.width + i) * 4 + c < |f.live|
  {
    OffsetOf(f.width, f.height, i, j);
  }

  /** A 40 x 40 frame with a 20-pixel grid has the one sample point (20, 20),
      whose probe window is the whole frame once the offset reaches 20. */
  lemma WholeFrameWindow(f: Frame, cfg: Config)
    requires f.width == 40 && f.height == 40 && cfg.resolution == 20 && cfg.offset >= 20
    ensures Samples(f, cfg) == [Sample(20, 20)]
    ensures ProbeWindow(f, cfg, Sample(20, 20)) == Window(0, 40, 0, 40)
  {
    assert Grid(20, 40, 40) == [];
    assert Grid(20, 40, 20) == [20];
    assert Column(20, [20]) == [Sample(20, 20)];
    assert Sweep([20], [20]) == Column(20, [20]) + Sweep([], [20]);
  }

  // ---------------------------------------------------------------------
  // One sample, one byte

  lemma StepAt(d: seq<int>, f: Frame, cfg: Config, s: Sample, k: int)
    requires ValidFrame(f) && ValidConfig(cfg) && |d| == |f.live| && 0 <= k < |d|
    ensures Step(d, f, cfg, s)[k] == if Writes(f, cfg, s, k) then Written(f, cfg, s, k) else d[k]
  {
  }

  /** A byte that no sample writes keeps its value. */
  lemma {:induction false} ApplyUnwritten(d: seq<int>, f: Frame, cfg: Config, ss: seq<Sample>, k: int)
    requires ValidFrame(f) && ValidConfig(cfg) && |d| == |f.live| && 0 <= k < |d|
    requires forall n :: 0 <= n < |ss| ==> !Writes(f, cfg, ss[n], k)
    ensures Apply(d, f, cfg, ss)[k] == d[k]
    decreases |ss|
  {
    if ss != [] {
      StepAt(d, f, cfg, ss[0], k);
      assert forall n :: 0 <= n < |ss[1..]| ==> ss[1..][n] == ss[n + 1];
      ApplyUnwritten(Step(d, f, cfg, ss[0]), f, cfg, ss[1..], k);
    }
  }

  /** A byte that some sample writes holds what the last such sample wrote. */
  lemma {:induction false} ApplyLastWriter(d: seq<int>, f: Frame, cfg: Config, ss: seq<Sample>, k: int, n: int)
    requires ValidFrame(f) && ValidConfig(cfg) && |d| == |f.live| && 0 <= k < |d|
    requires 0 <= n < |ss| && Writes(f, cfg, ss[n], k)
    requires forall m :: n < m < |ss| ==> !Writes(f, cfg, ss[m], k)
    ensures Apply(d, f, cfg, ss)[k] == Written(f, cfg, ss[n], k)
    decreases |ss|
  {
    var d1 := Step(d, f, cfg, ss[0]);
    assert forall m :: 0 <= m < |ss[1..]| ==> ss[1..][m] == ss[m + 1];
    if n == 0 {
      StepAt(d, f, cfg, ss[0], k);
      ApplyUnwritten(d1, f, cfg, ss[1..], k);
    } else {
      ApplyLastWriter(d1, f, cfg, ss[1..], k, n - 1);
    }
  }

  lemma ZeroMaskClean(f: Frame, win: Window)
    requires ValidFrame(f) && AllZero(f.mask)
    ensures !Contaminated(f.mask, f.width, f.height, win)
  {
    forall i, j | 0 <= i < f.width && 0 <= j < f.height
      ensures MaskAt(f.mask, f.width, f.height, i, j) == 0
    {
      OffsetOf(f.width, f.height, i, j);
    }
  }

  /** Some sample of `ss` rewrites byte `k` with live data. */
  ghost predicate AnyClean(f: Frame, cfg: Config, ss: seq<Sample>, k: int)
    requires ValidFrame(f) && ValidConfig(cfg)
  {
    exists s :: s in ss && CleanCover(f, cfg, s, k)
  }

  lemma AnyCleanCons(f: Frame, cfg: Config, ss: seq<Sample>, k: int)
    requires ValidFrame(f) && ValidConfig(cfg) && ss != []
    ensures AnyClean(f, cfg, ss, k) <==> CleanCover(f, cfg, ss[0], k) || AnyClean(f, cfg, ss[1..], k)
  {
    assert forall s :: s in ss <==> s == ss[0] || s in ss[1..];
  }

  /** Without red painting a sample writes only live data. */
  lemma StepClean(d: seq<int>, f: Frame, cfg: Config, s: Sample, k: int)
    requires ValidFrame(f) && ValidConfig(cfg) && |d| == |f.live| && 0 <= k < |d|
    requires !cfg.debug || AllZero(f.mask)
    ensures Step(d, f, cfg, s)[k] == if CleanCover(f, cfg, s, k) then LiveOpaque(f.live)[k] else d[k]
  {
    if AllZero(f.mask) {
      ZeroMaskClean(f, ProbeWindow(f, cfg, s));
    }
    StepAt(d, f, cfg, s, k);
  }

  /** Without red painting every writing sample writes the live pixel, so a
      byte is live exactly when some window that covers it is clean. */
  lemma {:induction false} ApplyClean(d: seq<int>, f: Frame, cfg: Config, ss: seq<Sample>, k: int)
    requires ValidFrame(f) && ValidConfig(cfg) && |d| == |f.live| && 0 <= k < |d|
    requires !cfg.debug || AllZero(f.mask)
    ensures Apply(d, f, cfg, ss)[k] == if AnyClean(f, cfg, ss, k) then LiveOpaque(f.live)[k] else d[k]
    decreases |ss|
  {
    if ss != [] {
      StepClean(d, f, cfg, ss[0], k);
      ApplyClean(Step(d, f, cfg, ss[0]), f, cfg, ss[1..], k);
      AnyCleanCons(f, cfg, ss, k);
    }
  }

  // ---------------------------------------------------------------------
  // The whole pass

  /** Pixels covered by no probe window keep their four bytes. */
  lemma UncoveredUnchanged(d: seq<int>, f: Frame, cfg: Config, k: int)
    requires ValidFrame(f) && ValidConfig(cfg) && |d| == |f.live| && 0 <= k < |d|
    requires forall s :: IsSamplePoint(f, cfg, s) ==> !CoversByte(ProbeWindow(f, cfg, s), f.width, k)
    ensures Composite(d, f, cfg)[k] == d[k]
  {
    var ss := Samples(f, cfg);
    forall n | 0 <= n < |ss| ensures !Writes(f, cfg, ss[n], k) {
      SamplePoints(f, cfg, ss[n]);
    }
    ApplyUnwritten(d, f, cfg, ss, k);
  }

  /** With DEBUG off: a byte covered by some uncontaminated window holds the
      live red, green or blue value, or 255 for alpha; every other byte keeps
      its value. */
  lemma DebugOffPixel(d: seq<int>, f: Frame, cfg: Config, k: int)
    requires ValidFrame(f) && ValidConfig(cfg) && |d| == |f.live| && 0 <= k < |d| && !cfg.debug
    ensures Composite(d, f, cfg)[k] ==
      if exists s :: IsSamplePoint(f, cfg, s) && CleanCover(f, cfg, s, k)
      then (if k % 4 == 3 then 255 else f.live[k]) else d[k]
  {
    CleanAmongSamples(d, f, cfg, k);
  }

  lemma CleanAmongSamples(d: seq<int>, f: Frame, cfg: Config, k: int)
    requires ValidFrame(f) && ValidConfig(cfg) && |d| == |f.live| && 0 <= k < |d|
    requires !cfg.debug || AllZero(f.mask)
    ensures Composite(d, f, cfg)[k] ==
      if exists s :: IsSamplePoint(f, cfg, s) && CleanCover(f, cfg, s, k)
      then LiveOpaque(f.live)[k] else d[k]
  {
    var ss := Samples(f, cfg);
    ApplyClean(d, f, cfg, ss, k);
    forall s ensures s in ss <==> IsSamplePoint(f, cfg, s) {
      SamplePoints(f, cfg, s);
    }
    assert AnyClean(f, cfg, ss, k) <==> exists s :: IsSamplePoint(f, cfg, s) && CleanCover(f, cfg, s, k);
  }

  /** With DEBUG on: a covered byte holds what the last sample, in x-outer,
      y-inner order, whose window covers it wrote: opaque red if that window
      was contaminated, the live pixel made opaque if not. */
  lemma DebugOnPixel(d: seq<int>, f: Frame, cfg: Config, k: int, n: int)
    requires ValidFrame(f) && ValidConfig(cfg) && |d| == |f.live| && 0 <= k < |d| && cfg.debug
    requires 0 <= n < |Samples(f, cfg)|
    requires CoversByte(ProbeWindow(f, cfg, Samples(f, cfg)[n]), f.width, k)
    requires forall m :: n < m < |Samples(f, cfg)| ==>
      !CoversByte(ProbeWindow(f, cfg, Samples(f, cfg)[m]), f.width, k)
    ensures Composite(d, f, cfg)[k] ==
      if Contaminated(f.mask, f.width, f.height, ProbeWindow(f, cfg, Samples(f, cfg)[n]))
      then (if k % 4 == 0 || k % 4 == 3 then 255 else 0)
      else (if k % 4 == 3 then 255 else f.live[k])
  {
    ApplyLastWriter(d, f, cfg, Samples(f, cfg), k, n);
  }

  /** With a mask labelled everywhere, every window that covers a pixel of
      the frame is contaminated. */
  lemma CoveredContaminated(f: Frame, win: Window, k: int)
    requires ValidFrame(f) && AllNonzero(f.mask) && 0 <= k < |f.live|
    requires CoversByte(win, f.width, k)
    ensures Contaminated(f.mask, f.width, f.height, win)
  {
    var w, h := f.width, f.height;
    var p := k / 4;
    CoordinatesOf(w, h, p);
    OffsetOf(w, h, p % w, p / w);
    assert MaskAt(f.mask, w, h, ColumnOf(k, w), RowOf(k, w)) == f.mask[p];
  }

  /** With DEBUG off, a mask labelled everywhere leaves the buffer unchanged. */
  lemma AllNonzeroUnchanged(d: seq<int>, f: Frame, cfg: Config)
    requires ValidFrame(f) && ValidConfig(cfg) && |d| == |f.live| && !cfg.debug
    requires AllNonzero(f.mask)
    ensures Composite(d, f, cfg) == d
  {
    forall k | 0 <= k < |d| ensures Composite(d, f, cfg)[k] == d[k] {
      CleanAmongSamples(d, f, cfg, k);
      forall s ensures !CleanCover(f, cfg, s, k) {
        var win := ProbeWindow(f, cfg, s);
        if CoversByte(win, f.width, k) {
          CoveredContaminated(f, win, k);
        }
      }
    }
  }

  /** A byte that holds `v` keeps it when every sample writing it writes `v`. */
  lemma {:induction false} ApplyKeeps(d: seq<int>, f: Frame, cfg: Config, ss: seq<Sample>, k: int, v: int)
    requires ValidFrame(f) && ValidConfig(cfg) && |d| == |f.live| && 0 <= k < |d| && d[k] == v
    requires forall m :: 0 <= m < |ss| && Writes(f, cfg, ss[m], k) ==> Written(f, cfg, ss[m], k) == v
    ensures Apply(d, f, cfg, ss)[k] == v
    decreases |ss|
  {
    if ss != [] {
      StepAt(d, f, cfg, ss[0], k);
      assert forall m :: 0 <= m < |ss[1..]| ==> ss[1..][m] == ss[m + 1];
      ApplyKeeps(Step(d, f, cfg, ss[0]), f, cfg, ss[1..], k, v);
    }
  }

  /** A byte that some sample writes holds `v` when every sample writing it
      writes `v`, whatever it held before. */
  lemma {:induction false} ApplyConstWriter(d: seq<int>, f: Frame, cfg: Config, ss: seq<Sample>, k: int, v: int, n: int)
    requires ValidFrame(f) && ValidConfig(cfg) && |d| == |f.live| && 0 <= k < |d|
    requires 0 <= n < |ss| && Writes(f, cfg, ss[n], k)
    requires forall m :: 0 <= m < |ss| && Writes(f, cfg, ss[m], k) ==> Written(f, cfg, ss[m], k) == v
    ensures Apply(d, f, cfg, ss)[k] == v
    decreases |ss|
  {
    var d1 := Step(d, f, cfg, ss[0]);
    assert forall m :: 0 <= m < |ss[1..]| ==> ss[1..][m] == ss[m + 1];
    if n == 0 {
      StepAt(d, f, cfg, ss[0], k);
      ApplyKeeps(d1, f, cfg, ss[1..], k, v);
    } else {
      ApplyConstWriter(d1, f, cfg, ss[1..], k, v, n - 1);
    }
  }

  /** With DEBUG on and a mask labelled everywhere, every pixel inside some
      probe window ends opaque red. */
  lemma AllNonzeroDebugRed(d: seq<int>, f: Frame, cfg: Config, k: int, n: int)
    requires ValidFrame(f) && ValidConfig(cfg) && |d| == |f.live| && 0 <= k < |d| && cfg.debug
    requires AllNonzero(f.mask)
    requires 0 <= n < |Samples(f, cfg)| && CoversByte(ProbeWindow(f, cfg, Samples(f, cfg)[n]), f.width, k)
    ensures Composite(d, f, cfg)[k] == if k % 4 == 0 || k % 4 == 3 then 255 else 0
  {
    var ss := Samples(f, cfg);
    forall m | 0 <= m < |ss| && Writes(f, cfg, ss[m], k)
      ensures Written(f, cfg, ss[m], k) == Highlight(|f.live|)[k]
    {
      CoveredContaminated(f, ProbeWindow(f, cfg, ss[m]), k);
    }
    ApplyConstWriter(d, f, cfg, ss, k, Highlight(|f.live|)[k], n);
  }

  /** With a mask labelled nowhere, a byte is live exactly when some probe
      window covers it, whatever DEBUG is. */
  lemma ZeroMaskPixel(d: seq<int>, f: Frame, cfg: Config, k: int)
    requires ValidFrame(f) && ValidConfig(cfg) && |d| == |f.live| && 0 <= k < |d|
    requires AllZero(f.mask)
    ensures Composite(d, f, cfg)[k] ==
      if exists s :: IsSamplePoint(f, cfg, s) && CoversByte(ProbeWindow(f, cfg, s), f.width, k)
      then (if k % 4 == 3 then 255 else f.live[k]) else d[k]
  {
    CleanAmongSamples(d, f, cfg, k);
    forall s ensures CleanCover(f, cfg, s, k) == CoversByte(ProbeWindow(f, cfg, s), f.width, k) {
      ZeroMaskClean(f, ProbeWindow(f, cfg, s));
    }
  }

  /** With a mask labelled nowhere, a second pass over the same live frame
      changes nothing. */
  lemma ZeroMaskIdempotent(d: seq<int>, f: Frame, cfg: Config)
    requires ValidFrame(f) && ValidConfig(cfg) && |d| == |f.live| && AllZero(f.mask)
    ensures Composite(Composite(d, f, cfg), f, cfg) == Composite(d, f, cfg)
  {
    var once := Composite(d, f, cfg);
    forall k | 0 <= k < |d| ensures Composite(once, f, cfg)[k] == once[k] {
      CleanAmongSamples(d, f, cfg, k);
      CleanAmongSamples(once, f, cfg, k);
    }
  }

  /** The 40 x 40 frame with a clean mask is replaced entirely. */
  lemma WholeFrameReplaced(d: seq<int>, f: Frame, cfg: Config)
    requires ValidFrame(f) && ValidConfig(cfg) && |d| == |f.live| && AllZero(f.mask)
    requires f.width == 40 && f.height == 40 && cfg.resolution == 20 && cfg.offset >= 20
    ensures Composite(d, f, cfg) == LiveOpaque(f.live)
  {
    WholeFrameWindow(f, cfg);
    forall k | 0 <= k < |d| ensures Composite(d, f, cfg)[k] == LiveOpaque(f.live)[k] {
      ZeroMaskPixel(d, f, cfg, k);
      SamplePoints(f, cfg, Sample(20, 20));
      CoordinatesOf(40, 40, k / 4);
      assert CoversByte(ProbeWindow(f, cfg, Sample(20, 20)), 40, k);
    }
  }

  // ---------------------------------------------------------------------
  // What is written

  lemma AlphaSamePixel(f: Frame, cfg: Config, s: Sample, k: int)
    requires ValidFrame(f) && ValidConfig(cfg) && 0 <= k < |f.live|
    ensures 0 <= AlphaOf(k) < |f.live| && AlphaOf(AlphaOf(k)) == AlphaOf(k)
    ensures Writes(f, cfg, s, AlphaOf(k)) == Writes(f, cfg, s, k)
    ensures Written(f, cfg, s, AlphaOf(k)) == 255
  {
    assert AlphaOf(k) / 4 == k / 4;
  }

  lemma {:induction false} ApplyOpaque(d: seq<int>, f: Frame, cfg: Config, ss: seq<Sample>)
    requires ValidFrame(f) && ValidConfig(cfg) && |d| == |f.live|
    ensures forall k :: 0 <= k < |d| && Apply(d, f, cfg, ss)[k] != d[k] ==> Apply(d, f, cfg, ss)[AlphaOf(k)] == 255
    decreases |ss|
  {
    if ss != [] {
      var d1 := Step(d, f, cfg, ss[0]);
      var r := Apply(d1, f, cfg, ss[1..]);
      ApplyOpaque(d1, f, cfg, ss[1..]);
      forall k | 0 <= k < |d| && r[k] != d[k] ensures r[AlphaOf(k)] == 255 {
        AlphaSamePixel(f, cfg, ss[0], k);
        StepAt(d, f, cfg, ss[0], k);
        StepAt(d, f, cfg, ss[0], AlphaOf(k));
      }
    }
  }

  /** Every pixel the pass changes is opaque afterwards. */
  lemma WrittenPixelsOpaque(d: seq<int>, f: Frame, cfg: Config, k: int)
    requires ValidFrame(f) && ValidConfig(cfg) && |d| == |f.live| && 0 <= k < |d|
    requires Composite(d, f, cfg)[k] != d[k]
    ensures AlphaOf(k) < |d| && Composite(d, f, cfg)[AlphaOf(k)] == 255
  {
    ApplyOpaque(d, f, cfg, Samples(f, cfg));
  }

  /** A frame without sample points leaves the buffer unchanged. */
  lemma SmallFrameUnchanged(d: seq<int>, f: Frame, cfg: Config)
    requires ValidFrame(f) && ValidConfig(cfg) && |d| == |f.live|
    requires f.width <= cfg.resolution || f.height <= cfg.resolution
    ensures Composite(d, f, cfg) == d
  {
    NoSamplePoints(f, cfg);
  }
}

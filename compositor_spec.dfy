/** The block compositor of `processSegmentation`, as values.

    A frame is `width` x `height` pixels; a pixel buffer holds four bytes
    (red, green, blue, alpha) per pixel in row-major order, so pixel (i, j)
    occupies bytes `4 * (j * width + i)` to `4 * (j * width + i) + 3`. The
    segmentation mask holds one label per pixel, nonzero meaning "body part".

    The pass visits the grid sample points in x-outer, y-inner order; around
    each it clamps a square probe window to the frame, and either copies the
    live frame into the whole window (no body part in it), paints the window
    red (a body part in it and the debug switch on), or leaves it alone.
    `Composite` is the result of that whole pass on an output buffer. */
module CompositorSpec {
  import opened Arith

  /** RESOLUTION_MIN, SEARCH_OFFSET and DEBUG. */
  datatype Config = Config(resolution: int, offset: int, debug: bool)

  /** The constants of the application: RESOLUTION_MIN = 20, SEARCH_RADIUS = 300,
      SEARCH_OFFSET = SEARCH_RADIUS / 2, DEBUG = false. */
  const SourceConfig := Config(20, 300 / 2, false)

  /** The inputs of one pass besides the output buffer: the frame size, the
      live camera frame's bytes and the mask. */
  datatype Frame = Frame(width: int, height: int, live: seq<int>, mask: seq<int>)

  datatype Sample = Sample(x: int, y: int)

  /** Columns `xMin .. xMax - 1` and rows `yMin .. yMax - 1`. */
  datatype Window = Window(xMin: int, xMax: int, yMin: int, yMax: int)

  predicate ValidConfig(cfg: Config) {
    cfg.resolution > 0 && cfg.offset >= 0
  }

  /** The application's constants meet the configuration's requirements, so
      every result stated for a valid configuration applies to them. */
  lemma SourceConfigValid()
    ensures ValidConfig(SourceConfig)
    ensures SourceConfig.resolution == 20 && SourceConfig.offset == 150 && !SourceConfig.debug
  {
  }

  predicate ValidMask(mask: seq<int>, w: int, h: int) {
    w > 0 && h > 0 && |mask| == w * h
  }

  /** Both buffers are read with the same canvas width and height. */
  predicate ValidFrame(f: Frame) {
    ValidMask(f.mask, f.width, f.height) && |f.live| == 4 * (f.width * f.height)
  }

  predicate Covers(win: Window, i: int, j: int) {
    win.xMin <= i < win.xMax && win.yMin <= j < win.yMax
  }

  /** The window lies inside the frame and its bounds are ordered. */
  predicate InFrame(win: Window, w: int, h: int) {
    0 <= win.xMin <= win.xMax <= w && 0 <= win.yMin <= win.yMax <= h
  }

  /** Column and row of the pixel that byte `k` belongs to. */
  function ColumnOf(k: int, w: int): int
    requires w > 0
  {
    (k / 4) % w
  }

  function RowOf(k: int, w: int): int
    requires w > 0
  {
    (k / 4) / w
  }

  predicate CoversByte(win: Window, w: int, k: int)
    requires w > 0
  {
    Covers(win, ColumnOf(k, w), RowOf(k, w))
  }

  // ---------------------------------------------------------------------
  // Sample points

  /** `start`, `start + step`, ... for as long as the value stays below `bound`:
      the values a loop `for (v = start; v < bound; v += step)` takes. */
  function Grid(step: int, bound: int, start: int): seq<int>
    requires step > 0
    decreases bound - start
  {
    if start < bound then [start] + Grid(step, bound, start + step) else []
  }

  /** The samples of one column, in the order of `ys`. */
  function Column(x: int, ys: seq<int>): seq<Sample>
  {
    if ys == [] then [] else [Sample(x, ys[0])] + Column(x, ys[1..])
  }

  /** All samples with x from `xs` (outer) and y from `ys` (inner). */
  function Sweep(xs: seq<int>, ys: seq<int>): seq<Sample>
  {
    if xs == [] then [] else Column(xs[0], ys) + Sweep(xs[1..], ys)
  }

  /** The sample points of one pass, in the order the two outer loops visit them. */
  function Samples(f: Frame, cfg: Config): seq<Sample>
    requires ValidConfig(cfg)
  {
    var r := cfg.resolution;
    Sweep(Grid(r, f.width, r), Grid(r, f.height, r))
  }

  /** The independent description of a sample point: both coordinates are
      positive multiples of the resolution and lie inside the frame. */
  predicate IsSamplePoint(f: Frame, cfg: Config, s: Sample)
    requires ValidConfig(cfg)
  {
    0 < s.x < f.width && 0 < s.y < f.height
    && s.x % cfg.resolution == 0 && s.y % cfg.resolution == 0
  }

  /** x-outer, y-inner order. */
  predicate Before(a: Sample, b: Sample) {
    a.x < b.x || (a.x == b.x && a.y < b.y)
  }

  // ---------------------------------------------------------------------
  // Probe window

  /** The probe square of half-width `offset` around the sample, clamped to the
      frame; the clamping follows the source's conditional expressions. */
  function ProbeWindow(f: Frame, cfg: Config, s: Sample): (win: Window)
    requires ValidConfig(cfg)
    ensures 0 <= win.xMin && win.xMax <= f.width && 0 <= win.yMin && win.yMax <= f.height
    ensures 0 <= s.x <= f.width && 0 <= s.y <= f.height ==> InFrame(win, f.width, f.height)
    ensures forall i, j :: Covers(win, i, j) <==>
      0 <= i < f.width && 0 <= j < f.height
      && s.x - cfg.offset <= i < s.x + cfg.offset
      && s.y - cfg.offset <= j < s.y + cfg.offset
  {
    var yMin := s.y - cfg.offset;
    var yMin := if yMin < 0 then 0 else yMin;
    var yMax := s.y + cfg.offset;
    var yMax := if yMax > f.height then f.height else yMax;
    var xMin := s.x - cfg.offset;
    var xMin := if xMin < 0 then 0 else xMin;
    var xMax := s.x + cfg.offset;
    var xMax := if xMax > f.width then f.width else xMax;
    Window(xMin, xMax, yMin, yMax)
  }

  // ---------------------------------------------------------------------
  // Contamination

  /** The label of pixel (i, j). */
  function MaskAt(mask: seq<int>, w: int, h: int, i: int, j: int): int
    requires ValidMask(mask, w, h) && 0 <= i < w && 0 <= j < h
  {
    OffsetOf(w, h, i, j);
    mask[j * w + i]
  }

  /** Some pixel of the frame inside the window carries a nonzero label. */
  ghost predicate Contaminated(mask: seq<int>, w: int, h: int, win: Window)
    requires ValidMask(mask, w, h)
  {
    exists i, j :: 0 <= i < w && 0 <= j < h && Covers(win, i, j) && MaskAt(mask, w, h, i, j) != 0
  }

  // ---------------------------------------------------------------------
  // Writing a window

  /** The live frame with every alpha byte forced to 255: what the copy path writes. */
  function LiveOpaque(live: seq<int>): seq<int>
  {
    seq(|live|, k requires 0 <= k < |live| => if k % 4 == 3 then 255 else live[k])
  }

  /** Opaque red (255, 0, 0, 255) in every pixel: what the debug path writes. */
  function Highlight(n: nat): seq<int>
  {
    seq(n, k => if k % 4 == 0 || k % 4 == 3 then 255 else 0)
  }

  /** `d` with the bytes of every pixel inside `win` taken from `src`. */
  function Fill(d: seq<int>, w: int, win: Window, src: seq<int>): (r: seq<int>)
    requires w > 0 && |src| == |d|
    ensures |r| == |d|
  {
    seq(|d|, k requires 0 <= k < |d| => if CoversByte(win, w, k) then src[k] else d[k])
  }

  // ---------------------------------------------------------------------
  // The pass

  /** The effect of one sample point on the output buffer. */
  ghost function Step(d: seq<int>, f: Frame, cfg: Config, s: Sample): (r: seq<int>)
    requires ValidFrame(f) && ValidConfig(cfg) && |d| == |f.live|
    ensures |r| == |d|
  {
    var win := ProbeWindow(f, cfg, s);
    if !Contaminated(f.mask, f.width, f.height, win) then Fill(d, f.width, win, LiveOpaque(f.live))
    else if cfg.debug then Fill(d, f.width, win, Highlight(|d|))
    else d
  }

  /** The effect of the samples `ss`, taken in order. */
  ghost function Apply(d: seq<int>, f: Frame, cfg: Config, ss: seq<Sample>): (r: seq<int>)
    requires ValidFrame(f) && ValidConfig(cfg) && |d| == |f.live|
    ensures |r| == |d|
    decreases |ss|
  {
    if ss == [] then d else Apply(Step(d, f, cfg, ss[0]), f, cfg, ss[1..])
  }

  /** The output buffer after one call of `processSegmentation`. */
  ghost function Composite(d: seq<int>, f: Frame, cfg: Config): (r: seq<int>)
    requires ValidFrame(f) && ValidConfig(cfg) && |d| == |f.live|
  {
    Apply(d, f, cfg, Samples(f, cfg))
  }

  // ---------------------------------------------------------------------
  // Per-byte descriptions used by the lemmas

  /** Sample `s` rewrites the pixel of byte `k` with live data. */
  ghost predicate CleanCover(f: Frame, cfg: Config, s: Sample, k: int)
    requires ValidFrame(f) && ValidConfig(cfg)
  {
    var win := ProbeWindow(f, cfg, s);
    CoversByte(win, f.width, k) && !Contaminated(f.mask, f.width, f.height, win)
  }

  /** Sample `s` writes the pixel of byte `k` at all. */
  ghost predicate Writes(f: Frame, cfg: Config, s: Sample, k: int)
    requires ValidFrame(f) && ValidConfig(cfg)
  {
    var win := ProbeWindow(f, cfg, s);
    CoversByte(win, f.width, k) && (cfg.debug || !Contaminated(f.mask, f.width, f.height, win))
  }

  /** The byte sample `s` writes at `k` when it writes there. */
  ghost function Written(f: Frame, cfg: Config, s: Sample, k: int): int
    requires ValidFrame(f) && ValidConfig(cfg) && 0 <= k < |f.live|
  {
    if Contaminated(f.mask, f.width, f.height, ProbeWindow(f, cfg, s))
    then Highlight(|f.live|)[k] else LiveOpaque(f.live)[k]
  }

  /** Byte index of the alpha channel of the pixel byte `k` belongs to. */
  function AlphaOf(k: int): int {
    4 * (k / 4) + 3
  }

  ghost predicate AllZero(mask: seq<int>) {
    forall p :: 0 <= p < |mask| ==> mask[p] == 0
  }

  ghost predicate AllNonzero(mask: seq<int>) {
    forall p :: 0 <= p < |mask| ==> mask[p] != 0
  }
}

/** The frame scheduler: `predictWebcam`, the promise callback that composites
    a finished mask, and the guard at the top of `enableCam`.

    The asynchronous chain is reduced to discrete events. `Tick` is one call
    of `predictWebcam` (one display refresh); `Resolve` is the segmenter's
    promise resolving, which runs the compositor and reopens the gate;
    `Reject` is the promise failing, which the source does not handle, so the
    gate stays closed. `ModelLoaded` is the model's load promise resolving and
    `EnableCam` a click on the enable button. */
module Scheduler {
  import opened CompositorSpec
  import Compositor

  /** `gate` is `previousSegmentationComplete`; `outstanding` counts the
      segmentation requests in flight and `requests` all requests ever issued;
      `modelLoaded` is `modelHasLoaded`; `streaming` records that `enableCam`
      got past its guard, after which the browser calls `predictWebcam`. */
  datatype GateState = GateState(gate: bool, outstanding: nat, requests: nat, modelLoaded: bool, streaming: bool)

  /** `previousSegmentationComplete = true`, `modelHasLoaded = false`. */
  const Initial := GateState(true, 0, 0, false, false)

  datatype Event = ModelLoaded | EnableCam | Tick | Resolve | Reject

  /** When an event can occur at all: `predictWebcam` runs only once the
      camera was enabled, and a promise settles only while it is pending. */
  predicate Enabled(s: GateState, e: Event) {
    match e
    case Tick => s.streaming
    case Resolve => s.outstanding > 0
    case Reject => s.outstanding > 0
    case _ => true
  }

  function Next(s: GateState, e: Event): GateState
    requires Enabled(s, e)
  {
    match e
    case ModelLoaded => s.(modelLoaded := true)
    case EnableCam => if !s.modelLoaded then s else s.(streaming := true)
    case Tick =>
      if s.gate then s.(gate := false, outstanding := s.outstanding + 1, requests := s.requests + 1)
      else s
    case Resolve => s.(gate := true, outstanding := s.outstanding - 1)
    case Reject => s.(outstanding := s.outstanding - 1)
  }

  predicate ValidTrace(s: GateState, es: seq<Event>)
    decreases |es|
  {
    es == [] || (Enabled(s, es[0]) && ValidTrace(Next(s, es[0]), es[1..]))
  }

  function Run(s: GateState, es: seq<Event>): GateState
    requires ValidTrace(s, es)
    decreases |es|
  {
    if es == [] then s else Run(Next(s, es[0]), es[1..])
  }

  /** At most one request in flight, none while the gate is open, and the
      camera only streams once the model has loaded. */
  predicate Inv(s: GateState) {
    s.outstanding <= 1 && (s.gate ==> s.outstanding == 0) && (s.streaming ==> s.modelLoaded)
  }

  /** The state a failed request leaves behind: the gate is closed and nothing
      is in flight that could reopen it. */
  predicate Stuck(s: GateState) {
    !s.gate && s.outstanding == 0
  }

  function Ticks(n: nat): (es: seq<Event>)
    ensures |es| == n && forall i :: 0 <= i < n ==> es[i] == Tick
  {
    if n == 0 then [] else [Tick] + Ticks(n - 1)
  }

  lemma NextKeepsInv(s: GateState, e: Event)
    requires Inv(s) && Enabled(s, e)
    ensures Inv(Next(s, e))
  {
  }

  lemma {:induction false} RunKeepsInv(s: GateState, es: seq<Event>)
    requires Inv(s) && ValidTrace(s, es)
    ensures Inv(Run(s, es))
    decreases |es|
  {
    if es != [] {
      NextKeepsInv(s, es[0]);
      RunKeepsInv(Next(s, es[0]), es[1..]);
    }
  }

  /** Along every possible history there is never more than one segmentation
      request outstanding. */
  lemma AtMostOneOutstanding(es: seq<Event>)
    requires ValidTrace(Initial, es)
    ensures Run(Initial, es).outstanding <= 1
    ensures Run(Initial, es).gate ==> Run(Initial, es).outstanding == 0
  {
    RunKeepsInv(Initial, es);
  }

  /** A tick with the gate open closes it and issues exactly one request; a
      tick with the gate closed changes nothing. */
  lemma TickIssues(s: GateState)
    requires Inv(s) && s.streaming
    ensures Next(s, Tick).requests == s.requests + (if s.gate then 1 else 0)
    ensures s.gate ==> !Next(s, Tick).gate && Next(s, Tick).outstanding == 1
    ensures !s.gate ==> Next(s, Tick) == s
  {
  }

  /** Any number of ticks while a request is outstanding (or after one
      failed) issue no request. */
  lemma {:induction false} ClosedTicks(s: GateState, n: nat)
    requires !s.gate && s.streaming
    ensures ValidTrace(s, Ticks(n)) && Run(s, Ticks(n)) == s
  {
    if n > 0 {
      ClosedTicks(s, n - 1);
      assert Ticks(n)[1..] == Ticks(n - 1);
    }
  }

  /** N ticks starting with the gate open send exactly one request. */
  lemma OpenTicks(s: GateState, n: nat)
    requires Inv(s) && s.gate && s.streaming
    ensures ValidTrace(s, Ticks(n + 1))
    ensures Run(s, Ticks(n + 1)).requests == s.requests + 1
    ensures Run(s, Ticks(n + 1)).outstanding == 1 && !Run(s, Ticks(n + 1)).gate
  {
    var s1 := Next(s, Tick);
    ClosedTicks(s1, n);
    assert Ticks(n + 1)[1..] == Ticks(n);
  }

  /** Only a resolution opens a closed gate. */
  lemma OnlyResolveOpens(s: GateState, e: Event)
    requires Enabled(s, e) && !s.gate && Next(s, e).gate
    ensures e == Resolve
  {
  }

  /** A failed request leaves the gate closed for good: no later history
      issues another request or opens the gate. */
  lemma {:induction false} RejectSticks(s: GateState, es: seq<Event>)
    requires Stuck(s) && ValidTrace(s, es)
    ensures Stuck(Run(s, es)) && Run(s, es).requests == s.requests
    decreases |es|
  {
    if es != [] {
      RejectSticks(Next(s, es[0]), es[1..]);
    }
  }

  lemma RejectLeavesStuck(s: GateState)
    requires Inv(s) && s.outstanding > 0
    ensures Stuck(Next(s, Reject))
  {
  }

  /** Enabling the camera before the model has loaded does nothing. */
  lemma EnableBeforeLoad(s: GateState)
    requires !s.modelLoaded
    ensures Next(s, EnableCam) == s
  {
  }

  /** The session's mutable state: `previousSegmentationComplete`,
      `modelHasLoaded`, the output canvas's and the live frame's pixel buffers.
      The request counts and the streaming flag are ghost bookkeeping the
      program itself does not keep. */
  class Session {
    var gate: bool
    var modelLoaded: bool
    ghost var outstanding: nat
    ghost var requests: nat
    ghost var streaming: bool
    const width: int
    const height: int
    const cfg: Config
    const output: array<int>
    const live: array<int>

    ghost function State(): GateState
      reads this
    {
      GateState(gate, outstanding, requests, modelLoaded, streaming)
    }

    ghost predicate Valid()
      reads this
    {
      width > 0 && height > 0 && ValidConfig(cfg)
      && output.Length == 4 * (width * height) && live.Length == output.Length && output != live
      && Inv(State())
    }

    constructor (w: int, h: int, c: Config)
      requires w > 0 && h > 0 && ValidConfig(c)
      ensures Valid() && State() == Initial
      ensures width == w && height == h && cfg == c && fresh(output) && fresh(live)
    {
      width, height, cfg := w, h, c;
      output := new int[4 * (w * h)];
      live := new int[4 * (w * h)];
      gate, modelLoaded := true, false;
      outstanding, requests, streaming := 0, 0, false;
    }

    /** The model's load promise resolved. */
    method OnModelLoaded()
      requires Valid()
      modifies this
      ensures Valid() && State() == Next(old(State()), ModelLoaded)
    {
      modelLoaded := true;
    }

    /** The enable button: ignored until the model has loaded. */
    method EnableCam()
      requires Valid()
      modifies this
      ensures Valid() && State() == Next(old(State()), Event.EnableCam)
    {
      if !modelLoaded {
        return;
      }
      streaming := true;
    }

    /** One display refresh: with the gate open, copy the camera image into
        the live buffer, close the gate and issue a request. */
    method PredictWebcam(frame: seq<int>) returns (issued: bool)
      requires Valid() && streaming && |frame| == live.Length
      modifies this, live
      ensures Valid() && State() == Next(old(State()), Tick)
      ensures issued == old(gate)
      ensures live[..] == if issued then frame else old(live[..])
      ensures output[..] == old(output[..])
    {
      issued := gate;
      if gate {
        forall k | 0 <= k < live.Length {
          live[k] := frame[k];
        }
        gate := false;
        outstanding := outstanding + 1;
        requests := requests + 1;
      }
    }

    /** The request resolved with a mask: composite it into the output, then
        reopen the gate. */
    method OnSegmentation(mask: seq<int>)
      requires Valid() && outstanding > 0 && ValidMask(mask, width, height)
      modifies this, output
      ensures Valid() && State() == Next(old(State()), Resolve)
      ensures output[..] == Composite(old(output[..]), Frame(width, height, live[..], mask), cfg)
      ensures live[..] == old(live[..])
    {
      Compositor.ProcessSegmentation(output, live, mask, width, height, cfg);
      gate := true;
      outstanding := outstanding - 1;
    }

    /** The request failed. No handler exists, so only the request settles:
        the gate stays closed. */
    method OnSegmentationFailed()
      requires Valid() && outstanding > 0
      modifies this
      ensures Valid() && State() == Next(old(State()), Reject)
    {
      outstanding := outstanding - 1;
    }
  }
}

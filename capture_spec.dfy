/**
 * What a capture is expected to do, as values: the clip time of every frame,
 * the events a capture produces in order, and the colour every atlas pixel
 * holds once a number of frames have been captured.
 */
module CaptureSpec {
  import opened Wrappers
  import opened Engine
  import opened Arithmetic
  import opened AtlasLayout

  /** `(frame / (float)numFrames) * length`: the clip time at which frame `frame` is sampled.  Frame 0
      is sampled at the start of the clip and every frame of the clip before its end. */
  function SampleTime(frame: int, numFrames: int, length: real): (t: real)
    requires numFrames >= 1
    ensures frame == 0 ==> t == 0.0
    ensures 0 <= frame < numFrames && 0.0 < length ==> 0.0 <= t < length
  {
    if 0 <= frame < numFrames && 0.0 < length then
      FractionBelowOne(frame, numFrames);
      ScaleBelow(frame as real / numFrames as real, length);
      (frame as real / numFrames as real) * length
    else
      (frame as real / numFrames as real) * length
  }

  /** Later frames are sampled at strictly later times. */
  lemma SampleTimesIncrease(i: int, j: int, numFrames: int, length: real)
    requires i < j && 1 <= numFrames && 0.0 < length
    ensures SampleTime(i, numFrames, length) < SampleTime(j, numFrames, length)
  {
    var n := numFrames as real;
    assert i as real / n < j as real / n;
  }

  /** The colour an atlas of this pass is cleared to, which is also the camera background for the pass. */
  function PassColor(pass: Pass): Color
  {
    match pass
    case Shaded => Clear
    case ViewSpaceNormal => NeutralNormal
  }

  /** The shot that frame `frame` is rendered from in `pass`. */
  function ShotOf(frame: int, numFrames: int, length: real, pass: Pass): Shot
    requires numFrames >= 1
  {
    Shot(SampleTime(frame, numFrames, length), pass, PassColor(pass))
  }

  datatype Warning = SampleUnset | CaptureUnset

  /** What a capture does that can be seen from outside: log messages, poses applied to the target,
      suspensions of the coroutine, renders, and the call of the completion callback. */
  datatype Event =
    | LogWarning(warning: Warning)
    | LogError(atlasSize: Vec2)
    | Sample(time: real)
    | Yield
    | Render(shot: Shot)
    | Complete

  /** The events of frame `frame` up to its suspension: pose, then suspend for one tick. */
  function Suspended(frame: int, numFrames: int, length: real): seq<Event>
    requires numFrames >= 1
  {
    [Sample(SampleTime(frame, numFrames, length)), Yield]
  }

  /** The events of frame `frame`: pose, suspend, shaded render, normal render. */
  function FrameEvents(frame: int, numFrames: int, length: real): seq<Event>
    requires numFrames >= 1
  {
    Suspended(frame, numFrames, length) +
    [Render(ShotOf(frame, numFrames, length, Shaded)), Render(ShotOf(frame, numFrames, length, ViewSpaceNormal))]
  }

  /** The events of the first k frames. */
  function FramesTrace(k: nat, numFrames: int, length: real): (t: seq<Event>)
    requires numFrames >= 1
    ensures |t| == 4 * k
  {
    if k == 0 then [] else FramesTrace(k - 1, numFrames, length) + FrameEvents(k - 1, numFrames, length)
  }

  /** The error logged before anything is rendered when the atlas is too large. */
  function OversizeLog(size: Vec2): seq<Event>
  {
    if Oversize(size) then [LogError(size)] else []
  }

  /** Whether the host stops the capture at the suspension of a frame it reaches. */
  predicate Stops(numFrames: int, stopAt: Option<nat>)
  {
    stopAt.Some? && stopAt.value < numFrames
  }

  /** The events of a configured capture of `numFrames` frames into atlases of size `size`.  If the host
      stops the coroutine at the suspension of frame `stopAt`, the trace ends there; otherwise all frames
      are captured and the completion callback runs. */
  function CaptureTrace(size: Vec2, numFrames: int, length: real, stopAt: Option<nat>): seq<Event>
    requires numFrames >= 1
  {
    OversizeLog(size) +
    if Stops(numFrames, stopAt) then
      FramesTrace(stopAt.value, numFrames, length) + Suspended(stopAt.value, numFrames, length)
    else
      FramesTrace(numFrames, numFrames, length) + [Complete]
  }

  /** The events of one whole frame extend the trace of the frames before it. */
  lemma FramesTraceStep(t0: seq<Event>, k: nat, numFrames: int, length: real, t: seq<Event>)
    requires numFrames >= 1
    requires t == t0 + FramesTrace(k, numFrames, length) + [Sample(SampleTime(k, numFrames, length))] + [Yield]
      + [Render(ShotOf(k, numFrames, length, Shaded))] + [Render(ShotOf(k, numFrames, length, ViewSpaceNormal))]
    ensures t == t0 + FramesTrace(k + 1, numFrames, length)
  {
  }

  /** The events of a frame up to its suspension. */
  lemma FramesTraceSuspended(t0: seq<Event>, k: nat, numFrames: int, length: real, t: seq<Event>)
    requires numFrames >= 1
    requires t == t0 + FramesTrace(k, numFrames, length) + [Sample(SampleTime(k, numFrames, length))] + [Yield]
    ensures t == t0 + FramesTrace(k, numFrames, length) + Suspended(k, numFrames, length)
  {
  }

  /** The trace of a capture put together from its parts: the oversize log, the frames captured, the
      events of the frame at whose suspension the host stops, or else the completion. */
  lemma CaptureTraceParts(t0: seq<Event>, size: Vec2, numFrames: int, length: real, stopAt: Option<nat>,
                          t1: seq<Event>, k: nat, t2: seq<Event>)
    requires numFrames >= 1 && t1 == t0 + OversizeLog(size)
    requires k == if Stops(numFrames, stopAt) then stopAt.value else numFrames
    requires t2 == t1 + FramesTrace(k, numFrames, length) +
      (if Stops(numFrames, stopAt) then Suspended(k, numFrames, length) else [Complete])
    ensures t2 == t0 + CaptureTrace(size, numFrames, length, stopAt)
  {
    var frames, log := FramesTrace(k, numFrames, length), OversizeLog(size);
    var tail := if Stops(numFrames, stopAt) then Suspended(k, numFrames, length) else [Complete];
    assert CaptureTrace(size, numFrames, length, stopAt) == log + (frames + tail);
    AppendAssociates(t0, log, frames, tail);
  }

  /** Concatenation of four traces associates. */
  lemma AppendAssociates(a: seq<Event>, b: seq<Event>, c: seq<Event>, d: seq<Event>)
    ensures a + b + c + d == a + (b + (c + d))
  {
  }

  /** Event 4i + j of the first k frames is event j of frame i. */
  lemma {:induction false} FramesTraceAt(k: nat, numFrames: int, length: real, i: int, j: int)
    requires numFrames >= 1 && 0 <= i < k && 0 <= j < 4
    ensures FramesTrace(k, numFrames, length)[4 * i + j] == FrameEvents(i, numFrames, length)[j]
  {
    if i < k - 1 {
      FramesTraceAt(k - 1, numFrames, length, i, j);
    }
  }

  /** Frames only sample, suspend and render: they log nothing and do not complete. */
  lemma {:induction false} FramesTraceEvents(k: nat, numFrames: int, length: real)
    requires numFrames >= 1
    ensures forall e :: e in FramesTrace(k, numFrames, length) ==> e.Sample? || e.Yield? || e.Render?
  {
    if k > 0 {
      FramesTraceEvents(k - 1, numFrames, length);
    }
  }

  /** Within the frames, every render is preceded by the suspension of its frame, which is preceded by
      the sample of the very pose the render shows, with no other sample in between. */
  lemma RenderAfterYieldAfterSample(k: nat, numFrames: int, length: real, p: int)
    requires numFrames >= 1 && 0 <= p < 4 * k && FramesTrace(k, numFrames, length)[p].Render?
    ensures var t, s := FramesTrace(k, numFrames, length), p - p % 4;
      && s + 1 < p
      && t[s] == Sample(t[p].shot.pose)
      && t[s + 1] == Yield
      && forall m :: s < m < p ==> !t[m].Sample?
  {
    var t, i, j := FramesTrace(k, numFrames, length), p / 4, p % 4;
    assert p == 4 * i + j;
    FramesTraceAt(k, numFrames, length, i, j);
    FramesTraceAt(k, numFrames, length, i, 0);
    FramesTraceAt(k, numFrames, length, i, 1);
    forall m | 4 * i < m < p
      ensures !t[m].Sample?
    {
      FramesTraceAt(k, numFrames, length, i, m - 4 * i);
    }
  }

  /** Frames are sampled in order: of two samples in the trace of the frames, the later one is at a
      strictly later clip time. */
  lemma SamplesInOrder(k: nat, numFrames: int, length: real, p: int, q: int)
    requires 1 <= numFrames && 0.0 < length
    requires 0 <= p < q < 4 * k
    requires FramesTrace(k, numFrames, length)[p].Sample? && FramesTrace(k, numFrames, length)[q].Sample?
    ensures FramesTrace(k, numFrames, length)[p].time < FramesTrace(k, numFrames, length)[q].time
  {
    FramesTraceAt(k, numFrames, length, p / 4, p % 4);
    FramesTraceAt(k, numFrames, length, q / 4, q % 4);
    assert p % 4 == 0 && q % 4 == 0;
    SampleTimesIncrease(p / 4, q / 4, numFrames, length);
  }

  /** The completion callback runs exactly when the host does not stop the capture, and then it runs
      once, as the last event. */
  lemma CompletesOnce(size: Vec2, numFrames: int, length: real, stopAt: Option<nat>)
    requires numFrames >= 1
    ensures var t := CaptureTrace(size, numFrames, length, stopAt);
      && (Complete in t <==> !Stops(numFrames, stopAt))
      && (!Stops(numFrames, stopAt) ==> t[|t| - 1] == Complete && Complete !in t[..|t| - 1])
  {
    var t := CaptureTrace(size, numFrames, length, stopAt);
    if Stops(numFrames, stopAt) {
      var k := stopAt.value;
      FramesTraceEvents(k, numFrames, length);
      assert t == OversizeLog(size) + FramesTrace(k, numFrames, length) + [Sample(SampleTime(k, numFrames, length)), Yield];
    } else {
      FramesTraceEvents(numFrames, numFrames, length);
      assert t[..|t| - 1] == OversizeLog(size) + FramesTrace(numFrames, numFrames, length);
    }
  }

  /** An error is logged exactly when the atlas is oversize, and then it is the first event; either way
      the capture goes on to sample frame 0 right after it. */
  lemma OversizeReported(size: Vec2, numFrames: int, length: real, stopAt: Option<nat>)
    requires numFrames >= 1
    ensures var t := CaptureTrace(size, numFrames, length, stopAt);
      && ((exists e :: e in t && e.LogError?) <==> Oversize(size))
      && (Oversize(size) ==> t[0] == LogError(size))
      && |OversizeLog(size)| < |t| && t[|OversizeLog(size)|] == Sample(0.0)
  {
    var t := CaptureTrace(size, numFrames, length, stopAt);
    var k := if Stops(numFrames, stopAt) then stopAt.value else numFrames;
    FramesTraceEvents(k, numFrames, length);
    var tail := if Stops(numFrames, stopAt) then Suspended(k, numFrames, length) else [Complete];
    var rest := FramesTrace(k, numFrames, length) + tail;
    assert t == OversizeLog(size) + rest;
    forall e | e in t && e.LogError?
      ensures Oversize(size)
    {
      assert e !in rest;
    }
    if Oversize(size) {
      assert t[0] in t;
    }
    if k > 0 {
      FramesTraceAt(k, numFrames, length, 0, 0);
    }
    assert rest[0] == Sample(SampleTime(0, numFrames, length));
  }

  /** The colour of pixel (x, y) of the atlas of `pass` once the first k frames have been captured:
      the image of the frame whose cell covers the pixel if that frame is one of them, the clear colour
      of the pass otherwise. */
  function CapturedPixel(scene: Scene, l: Layout, numFrames: int, length: real, pass: Pass, k: int, x: int, y: int): Color
    requires ValidLayout(l) && numFrames >= 1
  {
    var f := FrameAt(l, x, y);
    if 0 <= f < k then
      scene(ShotOf(f, numFrames, length, pass), x - CellPos(l, f).x, y - CellPos(l, f).y)
    else
      PassColor(pass)
  }

  /** Capturing frame k changes exactly the pixels of its cell, which then show its image. */
  lemma CapturedPixelStep(scene: Scene, l: Layout, numFrames: int, length: real, pass: Pass, k: nat, x: int, y: int)
    requires ValidLayout(l) && numFrames >= 1 && k < l.grid * l.grid && InAtlas(l, x, y)
    ensures CapturedPixel(scene, l, numFrames, length, pass, k + 1, x, y) ==
      if InCell(l, k, x, y)
      then scene(ShotOf(k, numFrames, length, pass), x - CellPos(l, k).x, y - CellPos(l, k).y)
      else CapturedPixel(scene, l, numFrames, length, pass, k, x, y)
  {
    CellMembership(l, k, x, y);
  }

  /** Every captured frame shows its whole image in its own cell. */
  lemma CapturedCell(scene: Scene, l: Layout, numFrames: int, length: real, pass: Pass, k: int, i: nat, u: int, v: int)
    requires ValidLayout(l) && numFrames >= 1 && i < k <= l.grid * l.grid
    requires 0 <= u < l.cell.x && 0 <= v < l.cell.y
    ensures CapturedPixel(scene, l, numFrames, length, pass, k, CellPos(l, i).x + u, CellPos(l, i).y + v)
      == scene(ShotOf(i, numFrames, length, pass), u, v)
  {
    var p := CellPos(l, i);
    CellInsideAtlas(l, i);
    CellMembership(l, i, p.x + u, p.y + v);
  }

  /** A pixel that no captured frame's cell covers keeps the clear colour of its pass. */
  lemma CapturedBackground(scene: Scene, l: Layout, numFrames: int, length: real, pass: Pass, k: int, x: int, y: int)
    requires ValidLayout(l) && numFrames >= 1 && InAtlas(l, x, y)
    requires forall i: nat :: i < k ==> !InCell(l, i, x, y)
    ensures CapturedPixel(scene, l, numFrames, length, pass, k, x, y) == PassColor(pass)
  {
    FrameAtInGrid(l, x, y);
  }
}

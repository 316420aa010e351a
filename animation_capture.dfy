/**
 * The capture component: its configuration fields, the null-guarded pose
 * sampling, the atlas clear, and the capture coroutine that renders every frame
 * of a clip twice and packs the two images into two atlases, restoring the
 * camera on the way out.
 *
 * The coroutine is modelled as one sequential method.  Its single suspension
 * point (`yield return null`) is an event in the trace, and the host's option
 * of disposing the coroutine (calling `Dispose()` on the enumerator while it is
 * suspended) is the parameter `stopAt`: disposing a suspended iterator runs its
 * `finally` block and nothing after the suspension.  A host that abandons the
 * enumerator without disposing it never runs the `finally` block; that host is
 * not modelled.
 */
module AnimationCapture {
  import opened Wrappers
  import opened Engine
  import opened AtlasLayout
  import opened CaptureSpec
  import opened Arithmetic

  /** How a run of the capture coroutine ends. */
  datatype Outcome =
    | NotConfigured                                         // the guard failed; nothing was done
    | Stopped(frame: nat)                                   // the host disposed the coroutine at this frame's suspension
    | Completed(diffuseMap: Texture2D, normalMap: Texture2D) // the atlases handed to the completion callback

  /** The atlas `tex` has the size of layout `l` and shows, in pass `pass`, exactly the first k frames. */
  ghost predicate ShowsFrames(tex: Texture2D, scene: Scene, l: Layout, numFrames: int, length: real, pass: Pass, k: int)
    reads tex, tex.data
    requires ValidLayout(l) && numFrames >= 1
  {
    && tex.Valid()
    && tex.width == AtlasSize(l).x && tex.height == AtlasSize(l).y
    && forall x, y :: 0 <= x < tex.width && 0 <= y < tex.height ==>
         tex.data[x, y] == CapturedPixel(scene, l, numFrames, length, pass, k, x, y)
  }

  class AnimationCaptureHelper {
    var target: GameObject?
    var sourceClip: AnimationClip?
    var framesPerSecond: int
    var cellSize: Vec2
    /** The frame being sampled; the capture loop counts with it. */
    var currentFrame: int
    var captureCamera: Camera?
    /** Everything the component has done that can be seen from outside, in order. */
    ghost var trace: seq<Event>

    /** A fresh component with the serialized defaults. */
    constructor ()
      ensures target == null && sourceClip == null && captureCamera == null
      ensures framesPerSecond == 30 && cellSize == Vec2(100, 100) && currentFrame == 0
      ensures trace == []
    {
      target := null;
      sourceClip := null;
      framesPerSecond := 30;
      cellSize := Vec2(100, 100);
      currentFrame := 0;
      captureCamera := null;
      trace := [];
    }

    /** Both the clip and the target are set. */
    predicate Configured()
      reads this
    {
      sourceClip != null && target != null
    }

    /** Poses the target at `time`, or only logs a warning when the clip or the target is missing. */
    method SampleAnimation(time: real)
      modifies this`trace
      ensures Configured() ==> trace == old(trace) + [Sample(time)]
      ensures !Configured() ==> trace == old(trace) + [LogWarning(SampleUnset)]
    {
      if sourceClip == null || target == null {
        trace := trace + [LogWarning(SampleUnset)];
        return;
      } else {
        trace := trace + [Sample(time)];
      }
    }

    /** Sets every pixel of `texture` to `color`, through a row-major pixel array of the texture's size. */
    method ClearAtlas(texture: Texture2D, color: Color)
      requires texture.Valid()
      modifies texture.data
      ensures forall x, y :: 0 <= x < texture.width && 0 <= y < texture.height ==> texture.data[x, y] == color
    {
      var pixels := new Color[texture.width * texture.height];
      var i := 0;
      while i < pixels.Length
        invariant 0 <= i <= pixels.Length
        invariant forall j :: 0 <= j < i ==> pixels[j] == color
      {
        pixels[i] := color;
        i := i + 1;
      }
      texture.SetPixels(pixels);
    }

    /** One render pass of one frame: set the camera background for the pass, render into the
        off-screen target, bind it and read it back into the cell of the frame in `atlas`. */
    method RenderCell(scene: Scene, graphics: Graphics, rtFrame: RenderTexture, atlas: Texture2D, pass: Pass,
                      ghost l: Layout, ghost numFrames: int, ghost length: real, ghost frame: nat,
                      currentTime: real, atlasPos: Vec2)
      requires captureCamera != null && captureCamera.targetTexture == rtFrame
      requires ValidLayout(l) && numFrames >= 1 && frame < l.grid * l.grid
      requires rtFrame.width == l.cell.x && rtFrame.height == l.cell.y
      requires currentTime == SampleTime(frame, numFrames, length) && atlasPos == CellPos(l, frame)
      requires ShowsFrames(atlas, scene, l, numFrames, length, pass, frame)
      modifies this`trace, captureCamera, rtFrame, graphics, atlas.data
      ensures ShowsFrames(atlas, scene, l, numFrames, length, pass, frame + 1)
      ensures trace == old(trace) + [Render(ShotOf(frame, numFrames, length, pass))]
      ensures captureCamera.backgroundColor == PassColor(pass) && captureCamera.targetTexture == rtFrame
      ensures graphics.activeRenderTarget == rtFrame && rtFrame.released == old(rtFrame.released)
    {
      captureCamera.backgroundColor := PassColor(pass);
      captureCamera.Render(currentTime, pass);
      trace := trace + [Render(rtFrame.shot.value)];
      graphics.activeRenderTarget := rtFrame;
      CellInsideAtlas(l, frame);
      atlas.ReadPixels(graphics.activeRenderTarget, scene, atlasPos.x, atlasPos.y);
      forall x, y | 0 <= x < atlas.width && 0 <= y < atlas.height
        ensures atlas.data[x, y] == CapturedPixel(scene, l, numFrames, length, pass, frame + 1, x, y)
      {
        CapturedPixelStep(scene, l, numFrames, length, pass, frame, x, y);
      }
    }

    /** The rest of one frame once the coroutine resumes: both render passes into the frame's cell, then
        the cell position steps to the right, or to the left end of the row below after the last cell
        of a row. */
    method RenderFrame(scene: Scene, graphics: Graphics, rtFrame: RenderTexture,
                       diffuseMap: Texture2D, normalMap: Texture2D,
                       ghost l: Layout, ghost numFrames: int, ghost length: real, frame: int,
                       currentTime: real, atlasPos: Vec2, gridCellCount: int)
      returns (nextPos: Vec2)
      requires captureCamera != null && captureCamera.targetTexture == rtFrame
      requires ValidLayout(l) && numFrames >= 1 && 0 <= frame < l.grid * l.grid
      requires l.cell == cellSize && l.grid == gridCellCount
      requires rtFrame.width == cellSize.x && rtFrame.height == cellSize.y
      requires currentTime == SampleTime(frame, numFrames, length) && atlasPos == CellPos(l, frame)
      requires diffuseMap.data != normalMap.data
      requires ShowsFrames(diffuseMap, scene, l, numFrames, length, Shaded, frame)
      requires ShowsFrames(normalMap, scene, l, numFrames, length, ViewSpaceNormal, frame)
      modifies this`trace, captureCamera, rtFrame, graphics, diffuseMap.data, normalMap.data
      ensures ShowsFrames(diffuseMap, scene, l, numFrames, length, Shaded, frame + 1)
      ensures ShowsFrames(normalMap, scene, l, numFrames, length, ViewSpaceNormal, frame + 1)
      ensures trace == old(trace) + [Render(ShotOf(frame, numFrames, length, Shaded))]
                                  + [Render(ShotOf(frame, numFrames, length, ViewSpaceNormal))]
      ensures nextPos == CellPos(l, frame + 1)
      ensures captureCamera.targetTexture == rtFrame && rtFrame.released == old(rtFrame.released)
    {
      RenderCell(scene, graphics, rtFrame, diffuseMap, Shaded, l, numFrames, length, frame, currentTime, atlasPos);
      RenderCell(scene, graphics, rtFrame, normalMap, ViewSpaceNormal, l, numFrames, length, frame, currentTime, atlasPos);

      nextPos := atlasPos.(x := atlasPos.x + cellSize.x);
      if (frame + 1) % gridCellCount == 0 {
        nextPos := Vec2(0, nextPos.y - cellSize.y);
      }
      PositionStepping(l, frame);
    }

    /** The frame loop of the capture coroutine, inside its `try` block: for every frame in order, sample
        the pose, suspend once, then render both passes into the frame's cell and step the cell position.
        Returns whether the host disposed the coroutine at a suspension. */
    method CaptureFrames(scene: Scene, graphics: Graphics, rtFrame: RenderTexture,
                         diffuseMap: Texture2D, normalMap: Texture2D, stopAt: Option<nat>,
                         ghost l: Layout, numFrames: int, gridCellCount: int, length: real, startPos: Vec2)
      returns (stopped: bool)
      requires Configured() && captureCamera != null && captureCamera.targetTexture == rtFrame
      requires ValidLayout(l) && 1 <= numFrames <= l.grid * l.grid
      requires l.cell == cellSize && l.grid == gridCellCount && startPos == StartPos(l)
      requires rtFrame.width == cellSize.x && rtFrame.height == cellSize.y
      requires diffuseMap.data != normalMap.data
      requires ShowsFrames(diffuseMap, scene, l, numFrames, length, Shaded, 0)
      requires ShowsFrames(normalMap, scene, l, numFrames, length, ViewSpaceNormal, 0)
      modifies this`trace, this`currentFrame, captureCamera, graphics, rtFrame, diffuseMap.data, normalMap.data
      ensures stopped == Stops(numFrames, stopAt)
      ensures currentFrame == if stopped then stopAt.value else numFrames
      ensures stopped ==> trace == old(trace) + FramesTrace(currentFrame, numFrames, length) + Suspended(currentFrame, numFrames, length)
      ensures !stopped ==> trace == old(trace) + FramesTrace(currentFrame, numFrames, length)
      ensures !stopped ==> ShowsFrames(diffuseMap, scene, l, numFrames, length, Shaded, numFrames)
      ensures !stopped ==> ShowsFrames(normalMap, scene, l, numFrames, length, ViewSpaceNormal, numFrames)
      ensures captureCamera.targetTexture == rtFrame && rtFrame.released == old(rtFrame.released)
    {
      var atlasPos := startPos;
      PositionStepping(l, 0);
      stopped := false;
      currentFrame := 0;
      while currentFrame < numFrames
        invariant 0 <= currentFrame <= numFrames && !stopped
        invariant stopAt.None? || currentFrame <= stopAt.value
        invariant atlasPos == CellPos(l, currentFrame)
        invariant ShowsFrames(diffuseMap, scene, l, numFrames, length, Shaded, currentFrame)
        invariant ShowsFrames(normalMap, scene, l, numFrames, length, ViewSpaceNormal, currentFrame)
        invariant trace == old(trace) + FramesTrace(currentFrame, numFrames, length)
        invariant captureCamera.targetTexture == rtFrame && rtFrame.released == old(rtFrame.released)
        decreases numFrames - currentFrame
      {
        var currentTime := SampleTime(currentFrame, numFrames, length);
        SampleAnimation(currentTime);
        trace := trace + [Yield];
        if stopAt == Some(currentFrame) {
          FramesTraceSuspended(old(trace), currentFrame, numFrames, length, trace);
          stopped := true;
          break;
        }

        atlasPos := RenderFrame(scene, graphics, rtFrame, diffuseMap, normalMap, l, numFrames, length, currentFrame,
                                currentTime, atlasPos, gridCellCount);
        FramesTraceStep(old(trace), currentFrame, numFrames, length, trace);
        currentFrame := currentFrame + 1;
      }
    }

    /** The capture coroutine.  Without a clip or a target it only logs a warning.  Otherwise it counts
        the frames of the clip and captures them (see CaptureClip). */
    method CaptureAnimation(scene: Scene, graphics: Graphics, stopAt: Option<nat>)
      returns (outcome: Outcome, ghost renderTexture: RenderTexture?)
      requires Configured() ==>
        && captureCamera != null && cellSize.x >= 1 && cellSize.y >= 1
        && sourceClip.length >= 0.0 && FrameCount(sourceClip.length, framesPerSecond) >= 1
      modifies this`trace, this`currentFrame, captureCamera, graphics
      ensures !Configured() ==>
        && outcome == NotConfigured && renderTexture == null
        && trace == old(trace) + [LogWarning(CaptureUnset)]
        && currentFrame == old(currentFrame)
        && graphics.activeRenderTarget == old(graphics.activeRenderTarget)
        && (captureCamera != null ==>
              && captureCamera.backgroundColor == old(captureCamera.backgroundColor)
              && captureCamera.targetTexture == old(captureCamera.targetTexture))
      ensures Configured() ==>
        var length := sourceClip.length;
        var numFrames := FrameCount(length, framesPerSecond);
        var l := Plan(numFrames, cellSize);
        && trace == old(trace) + CaptureTrace(AtlasSize(l), numFrames, length, stopAt)
        && renderTexture != null && fresh(renderTexture) && renderTexture.released
        && renderTexture.width == cellSize.x && renderTexture.height == cellSize.y
        && captureCamera.targetTexture == null
        && captureCamera.backgroundColor == old(captureCamera.backgroundColor)
        && graphics.activeRenderTarget == null
        && if Stops(numFrames, stopAt) then
             outcome == Stopped(stopAt.value) && currentFrame == stopAt.value
           else
             && outcome.Completed? && currentFrame == numFrames
             && fresh(outcome.diffuseMap) && fresh(outcome.diffuseMap.data)
             && fresh(outcome.normalMap) && fresh(outcome.normalMap.data)
             && outcome.diffuseMap.data != outcome.normalMap.data
             && ShowsFrames(outcome.diffuseMap, scene, l, numFrames, length, Shaded, numFrames)
             && ShowsFrames(outcome.normalMap, scene, l, numFrames, length, ViewSpaceNormal, numFrames)
    {
      renderTexture := null;
      if sourceClip == null || target == null {
        trace := trace + [LogWarning(CaptureUnset)];
        return NotConfigured, null;
      }

      var numFrames := FrameCount(sourceClip.length, framesPerSecond);
      outcome, renderTexture := CaptureClip(scene, graphics, stopAt, numFrames);
    }

    /** A new atlas of the size of layout `l`, cleared to the colour of `pass`: it shows no frame yet. */
    method NewAtlas(scene: Scene, ghost l: Layout, ghost numFrames: int, ghost length: real, pass: Pass, atlasSize: Vec2)
      returns (atlas: Texture2D)
      requires ValidLayout(l) && numFrames >= 1 && atlasSize == AtlasSize(l)
      ensures fresh(atlas) && fresh(atlas.data)
      ensures ShowsFrames(atlas, scene, l, numFrames, length, pass, 0)
    {
      assert 0 <= atlasSize.x && 0 <= atlasSize.y by {
        MulMonotone(0, l.grid, l.cell.x);
        MulMonotone(0, l.grid, l.cell.y);
      }
      atlas := new Texture2D(atlasSize.x, atlasSize.y);
      ClearAtlas(atlas, PassColor(pass));
    }

    /** The `finally` block of the capture coroutine: unbind the off-screen target, detach it from the
        camera, give the camera its background colour back and release the off-screen target. */
    method RestoreCamera(graphics: Graphics, rtFrame: RenderTexture, cachedCameraColor: Color)
      requires captureCamera != null
      modifies captureCamera, graphics, rtFrame
      ensures graphics.activeRenderTarget == null && captureCamera.targetTexture == null
      ensures captureCamera.backgroundColor == cachedCameraColor
      ensures rtFrame.released && rtFrame.shot == old(rtFrame.shot)
    {
      graphics.activeRenderTarget := null;
      captureCamera.targetTexture := null;
      captureCamera.backgroundColor := cachedCameraColor;
      rtFrame.Release();
    }

    /** The capture coroutine past its guard, for a clip of `numFrames` frames: it lays out the grid, logs
        an error for an oversize atlas and carries on, creates and clears both atlases, then captures the
        frames into them (see CaptureWithCamera). */
    method CaptureClip(scene: Scene, graphics: Graphics, stopAt: Option<nat>, numFrames: int)
      returns (outcome: Outcome, ghost renderTexture: RenderTexture?)
      requires Configured() && captureCamera != null && cellSize.x >= 1 && cellSize.y >= 1
      requires numFrames >= 1
      modifies this`trace, this`currentFrame, captureCamera, graphics
      ensures
        var length := sourceClip.length;
        var l := Plan(numFrames, cellSize);
        && trace == old(trace) + CaptureTrace(AtlasSize(l), numFrames, length, stopAt)
        && renderTexture != null && fresh(renderTexture) && renderTexture.released
        && renderTexture.width == cellSize.x && renderTexture.height == cellSize.y
        && captureCamera.targetTexture == null
        && captureCamera.backgroundColor == old(captureCamera.backgroundColor)
        && graphics.activeRenderTarget == null
        && if Stops(numFrames, stopAt) then
             outcome == Stopped(stopAt.value) && currentFrame == stopAt.value
           else
             && outcome.Completed? && currentFrame == numFrames
             && fresh(outcome.diffuseMap) && fresh(outcome.diffuseMap.data)
             && fresh(outcome.normalMap) && fresh(outcome.normalMap.data)
             && outcome.diffuseMap.data != outcome.normalMap.data
             && ShowsFrames(outcome.diffuseMap, scene, l, numFrames, length, Shaded, numFrames)
             && ShowsFrames(outcome.normalMap, scene, l, numFrames, length, ViewSpaceNormal, numFrames)
    {
      var length := sourceClip.length;
      var gridCellCount := SqrtCeil(numFrames);
      ghost var l := Plan(numFrames, cellSize);
      var atlasSize := Vec2(cellSize.x * gridCellCount, cellSize.y * gridCellCount);
      var atlasPos := Vec2(0, atlasSize.y - cellSize.y);

      if atlasSize.x > MaxAtlasSide || atlasSize.y > MaxAtlasSide {
        trace := trace + [LogError(atlasSize)];
      }
      ghost var traceBefore := trace;

      var diffuseMap := NewAtlas(scene, l, numFrames, length, Shaded, atlasSize);
      var normalMap := NewAtlas(scene, l, numFrames, length, ViewSpaceNormal, atlasSize);

      ghost var framesDone: nat;
      outcome, renderTexture, framesDone :=
        CaptureWithCamera(scene, graphics, stopAt, diffuseMap, normalMap, l, numFrames, gridCellCount, atlasPos);
      CaptureTraceParts(old(trace), atlasSize, numFrames, length, stopAt, traceBefore, framesDone, trace);
    }

    /** The rest of the capture coroutine, once both atlases exist: point the camera at a new off-screen
        target, remember its background colour, capture the frames, and if the host lets the coroutine
        run to the end hand both atlases to the completion callback.  Whether it ends or is disposed at a
        suspension, the `finally` block runs (see RestoreCamera).  `framesDone` is the number of frames
        captured before it ended. */
    method CaptureWithCamera(scene: Scene, graphics: Graphics, stopAt: Option<nat>,
                             diffuseMap: Texture2D, normalMap: Texture2D,
                             ghost l: Layout, numFrames: int, gridCellCount: int, atlasPos: Vec2)
      returns (outcome: Outcome, ghost renderTexture: RenderTexture?, ghost framesDone: nat)
      requires Configured() && captureCamera != null
      requires ValidLayout(l) && 1 <= numFrames <= l.grid * l.grid
      requires l.cell == cellSize && l.grid == gridCellCount && atlasPos == StartPos(l)
      requires diffuseMap.data != normalMap.data
      requires ShowsFrames(diffuseMap, scene, l, numFrames, sourceClip.length, Shaded, 0)
      requires ShowsFrames(normalMap, scene, l, numFrames, sourceClip.length, ViewSpaceNormal, 0)
      modifies this`trace, this`currentFrame, captureCamera, graphics, diffuseMap.data, normalMap.data
      ensures framesDone == if Stops(numFrames, stopAt) then stopAt.value else numFrames
      ensures trace == old(trace) + FramesTrace(framesDone, numFrames, sourceClip.length) +
        if Stops(numFrames, stopAt) then Suspended(framesDone, numFrames, sourceClip.length) else [Complete]
      ensures renderTexture != null && fresh(renderTexture) && renderTexture.released
      ensures renderTexture.width == cellSize.x && renderTexture.height == cellSize.y
      ensures captureCamera.targetTexture == null
      ensures captureCamera.backgroundColor == old(captureCamera.backgroundColor)
      ensures graphics.activeRenderTarget == null
      ensures currentFrame == framesDone
      ensures Stops(numFrames, stopAt) ==> outcome == Stopped(stopAt.value)
      ensures !Stops(numFrames, stopAt) ==>
        && outcome == Completed(diffuseMap, normalMap)
        && ShowsFrames(diffuseMap, scene, l, numFrames, sourceClip.length, Shaded, numFrames)
        && ShowsFrames(normalMap, scene, l, numFrames, sourceClip.length, ViewSpaceNormal, numFrames)
    {
      var rtFrame := new RenderTexture(cellSize.x, cellSize.y);
      renderTexture := rtFrame;

      captureCamera.targetTexture := rtFrame;
      var cachedCameraColor := captureCamera.backgroundColor;

      var stopped := CaptureFrames(scene, graphics, rtFrame, diffuseMap, normalMap, stopAt,
                                   l, numFrames, gridCellCount, sourceClip.length, atlasPos);
      framesDone := currentFrame;
      if !stopped {
        trace := trace + [Complete];
        outcome := Completed(diffuseMap, normalMap);
      } else {
        outcome := Stopped(currentFrame);
      }
      RestoreCamera(graphics, rtFrame, cachedCameraColor);
    }
  }
}

# Animation capture helper, modelled in Dafny

This project models the capture core of a Unity sprite-sheet tool. The tool plays a legacy
animation clip on a target object and renders every frame twice with a capture camera:
once shaded over a transparent background, and once with a view-space-normal shader over
the neutral-normal colour. It packs the two images of each frame into one cell of two
equally sized atlases, a diffuse map and a normal map. The capture runs as a coroutine that
suspends once per frame. When the coroutine ends, or when its host disposes it (calls
`Dispose()` on the enumerator while it is suspended at the `yield`), a `finally` block puts
the camera back. The model covers:

- the grid layout: the frame count, the ceiled square root that gives the grid side, the
  atlas size, and the oversize error;
- the atlas clear;
- the cell-position stepping and the per-frame read-back into each atlas;
- the order of events: sample, suspend, shaded render, normal render, completion;
- the null guards of `CaptureAnimation` and `SampleAnimation`;
- the `finally` block.

Files:

- `engine.dfy` models the engine objects the capture drives.
  - Textures are `array2<Color>`, indexed `data[x, y]` with row 0 at the bottom.
  - A render stores a symbolic `Shot` (pose time, pass, background colour) in the camera's
    target texture. A caller-supplied `Scene` function gives the colour of every pixel of a shot.
- `atlas_layout.dfy` holds the layout arithmetic and its lemmas.
- `capture_spec.dfy` holds the reference definitions:
  - the expected event trace of a capture;
  - the expected colour of every atlas pixel after k frames;
  - lemmas about both.
- `animation_capture.dfy` is the component itself. It is a class with the serialized fields
  and a ghost `trace` of externally visible events, and its methods are proved against the
  reference definitions.

The coroutine is one sequential method, `CaptureAnimation`, split for proof into the stages
the source goes through:

- `CaptureClip`: layout, oversize log and atlases;
- `CaptureWithCamera`: render target, camera set-up, `onComplete` and `finally`;
- `CaptureFrames`: the frame loop;
- `RenderFrame` and `RenderCell`: the two passes of one frame;
- `RestoreCamera`: the `finally` block.

A host can dispose the suspended coroutine, that is, call `Dispose()` on the enumerator while
it waits at a `yield`. This is the parameter `stopAt`: when it names a frame that is reached,
the coroutine is disposed at that frame's `yield`. The `finally` block then runs and the
atlases are not handed on.

Facts about the code that the model keeps:

- The frame count is `(int)(length * framesPerSecond)`, truncated toward zero.
- The guard checks only the clip and the target, so a non-null camera is a precondition.
  When the guard fails, it logs a warning.
- The `finally` block sets the camera's target texture to `null`. It does not restore the
  previous value. It also unbinds the render target rather than restoring a previous binding.
- An oversize atlas only logs an error. The capture is neither aborted nor clamped.
- Frame 0 goes to the top-left cell, at (0, atlasHeight - cellHeight) in bottom-origin texture
  coordinates. Each row fills left to right, and rows fill downwards (`FourFrameLayout`).

## Model

| member | source | states |
|---|---|---|
| AtlasLayout.FrameCount | Assets/Scripts/AnimationCaptureHelper.cs:78 | the frame count is `length * framesPerSecond` truncated toward zero: within 1 below a non-negative product, within 1 above a negative one |
| AtlasLayout.SqrtCeil | Assets/Scripts/AnimationCaptureHelper.cs:155-158 | the grid side g satisfies `input <= g*g` and `(g-1)*(g-1) < input`, and is at least 1 when there is a frame |
| AtlasLayout.SqrtCeilIsLeast | Assets/Scripts/AnimationCaptureHelper.cs:155-158 | no natural number whose square reaches the input is smaller than the grid side: g is the least such number |
| AtlasLayout.Plan | Assets/Scripts/AnimationCaptureHelper.cs:79 | the planned layout keeps the cell size, its grid has room for every frame, and it has at least one cell once there is a frame |
| AtlasLayout.AtlasSize | Assets/Scripts/AnimationCaptureHelper.cs:80 | each side of the atlas holds exactly `grid` whole cells: dividing it by the cell side gives the grid side with no remainder |
| AtlasLayout.StartPos | Assets/Scripts/AnimationCaptureHelper.cs:81 | the first position is at the left edge, and its cell's top edge is the top edge of the atlas, inside the atlas for a valid layout |
| AtlasLayout.OversizeGrid | Assets/Scripts/AnimationCaptureHelper.cs:83 | the atlas is oversize (`Oversize`, a side above 4096) exactly when the grid side exceeds `4096 / cell.x` or `4096 / cell.y`, the number of whole cells that fit |
| AtlasLayout.PlanFits | Assets/Scripts/AnimationCaptureHelper.cs:79-80 | the chosen grid holds every frame, is no larger than any square grid that holds them, and is a valid layout when there is a frame and the cells are non-empty; the atlas size `(g*cell.x, g*cell.y)` of both maps is stated by CaptureAnimation's ensures |
| AtlasLayout.PositionStepping | Assets/Scripts/AnimationCaptureHelper.cs:133-139 | the start position is the cell of frame 0, and one step of `atlasPos` (`NextPos`, the step as written) moves from the cell of frame i to the closed-form cell `((i % g)*cell.x, atlasH - cell.y - (i / g)*cell.y)` of frame i+1 |
| AtlasLayout.FourFrameLayout | Assets/Scripts/AnimationCaptureHelper.cs:79-81 | four 10x10 frames give a 2x2 grid, a 20x20 atlas and the cells (0,10), (10,10), (0,0), (10,0), in that order |
| AtlasLayout.CellInsideAtlas | Assets/Scripts/AnimationCaptureHelper.cs:124 | the cell rectangle of every frame that fits the grid lies inside the atlas bounds |
| AtlasLayout.CellMembership | Assets/Scripts/AnimationCaptureHelper.cs:133-139 | an atlas pixel lies in the cell of frame i exactly when the inverse mapping FrameAt names i, in both directions |
| AtlasLayout.FrameAtInGrid | Assets/Scripts/AnimationCaptureHelper.cs:80-81 | every atlas pixel lies in the cell of the grid frame FrameAt names, and in the cell of no other grid frame |
| AtlasLayout.CellsDisjoint | Assets/Scripts/AnimationCaptureHelper.cs:124 | the cells of two different frames share no pixel |
| CaptureSpec.SampleTime | Assets/Scripts/AnimationCaptureHelper.cs:117 | frame 0 is sampled at time 0, and every frame of a clip of positive length is sampled at a time in [0, length) |
| CaptureSpec.SampleTimesIncrease | Assets/Scripts/AnimationCaptureHelper.cs:117 | a later frame is sampled at a strictly later time |
| CaptureSpec.FramesTraceAt | Assets/Scripts/AnimationCaptureHelper.cs:115-131 | event 4i+j of the frames' trace is event j of frame i: sample, yield, shaded render, normal render |
| CaptureSpec.FramesTraceEvents | Assets/Scripts/AnimationCaptureHelper.cs:115-131 | the frame loop only samples, yields and renders: it logs nothing and does not complete |
| CaptureSpec.RenderAfterYieldAfterSample | Assets/Scripts/AnimationCaptureHelper.cs:118-128 | every render is preceded by its frame's yield, which is preceded by the sample of the very pose the render shows, with no other sample in between |
| CaptureSpec.SamplesInOrder | Assets/Scripts/AnimationCaptureHelper.cs:115-118 | of any two samples in the trace, the later one is at a strictly later clip time |
| CaptureSpec.CompletesOnce | Assets/Scripts/AnimationCaptureHelper.cs:141 | the completion callback appears in the trace iff the host does not stop the coroutine, and then exactly once, as the last event |
| CaptureSpec.OversizeReported | Assets/Scripts/AnimationCaptureHelper.cs:83-87 | an error is logged iff a side of the atlas exceeds 4096, and then it is the first event; either way the next event is the sample of frame 0 at time 0, so the capture goes on |
| CaptureSpec.CapturedPixelStep | Assets/Scripts/AnimationCaptureHelper.cs:124 | capturing frame k changes exactly the pixels of its cell, which then show its image; all other pixels keep their colour |
| CaptureSpec.CapturedCell | Assets/Scripts/AnimationCaptureHelper.cs:130 | each captured frame shows its whole cell-sized image, pixel for pixel, in its own cell |
| CaptureSpec.CapturedBackground | Assets/Scripts/AnimationCaptureHelper.cs:89-99 | a pixel that no captured frame covers keeps the clear colour of its atlas |
| Engine.RowMajor | Assets/Scripts/AnimationCaptureHelper.cs:165 | the pixel index of (x, y) lies in the `width*height` array, and `%` and `/` recover x and y from it |
| Engine.Texture2D.SetPixels | Assets/Scripts/AnimationCaptureHelper.cs:170 | every pixel (x, y) takes the array element at its row-major index |
| Engine.Texture2D.ReadPixels | Assets/Scripts/AnimationCaptureHelper.cs:124 | the cell-sized rectangle at (destX, destY) receives the rendered image, and every pixel outside it is unchanged |
| Engine.Camera.Render | Assets/Scripts/AnimationCaptureHelper.cs:122-128 | the target texture receives the shot of this pose and pass over the current background colour |
| Engine.RenderTexture.Release | Assets/Scripts/AnimationCaptureHelper.cs:148 | the render texture is released |
| AnimationCapture.AnimationCaptureHelper.constructor | Assets/Scripts/AnimationCaptureHelper.cs:13-44 | a new component has no target, clip or camera, 30 frames per second, 100x100 cells and an empty trace |
| AnimationCapture.AnimationCaptureHelper.SampleAnimation | Assets/Scripts/AnimationCaptureHelper.cs:49-60 | with clip and target set, the pose at `time` is applied; otherwise only a warning is logged |
| AnimationCapture.AnimationCaptureHelper.ClearAtlas | Assets/Scripts/AnimationCaptureHelper.cs:163-172 | every one of the `width*height` pixels equals the given colour |
| AnimationCapture.AnimationCaptureHelper.NewAtlas | Assets/Scripts/AnimationCaptureHelper.cs:89-99 | a fresh atlas of the layout's size, cleared to its pass colour (transparent for diffuse, (0.5, 0.5, 1, 0) for normals), showing no frame |
| AnimationCapture.AnimationCaptureHelper.RenderCell | Assets/Scripts/AnimationCaptureHelper.cs:121-131 | one pass sets the pass background, renders, binds the target and reads back: the atlas then shows frame k in its cell and the first k frames elsewhere, and one render event is logged |
| AnimationCapture.AnimationCaptureHelper.RenderFrame | Assets/Scripts/AnimationCaptureHelper.cs:121-139 | both atlases gain frame k, the shaded render is logged before the normal one, and the next position is the cell of frame k+1 |
| AnimationCapture.AnimationCaptureHelper.CaptureFrames | Assets/Scripts/AnimationCaptureHelper.cs:115-140 | the loop processes frames 0, 1, ... in order and appends each frame's events to the trace; if not stopped it ends with `currentFrame == numFrames` and both atlases showing every frame |
| AnimationCapture.AnimationCaptureHelper.RestoreCamera | Assets/Scripts/AnimationCaptureHelper.cs:143-149 | the render target is unbound, the camera's target texture is null, its background colour is the cached one, and the render texture is released |
| AnimationCapture.AnimationCaptureHelper.CaptureWithCamera | Assets/Scripts/AnimationCaptureHelper.cs:101-149 | after the frames, the completion event runs once, only if the host did not stop the coroutine; on both paths the camera is restored and the fresh render texture of cell size is released |
| AnimationCapture.AnimationCaptureHelper.CaptureClip | Assets/Scripts/AnimationCaptureHelper.cs:78-99 | the whole trace is the reference CaptureTrace for the planned atlas size; if not stopped the outcome holds two fresh, distinct atlases of that size showing every frame |
| AnimationCapture.AnimationCaptureHelper.CaptureAnimation | Assets/Scripts/AnimationCaptureHelper.cs:70-150 | without clip or target it only logs a warning and touches no camera, frame counter or render target; otherwise the capture of `FrameCount(length, fps)` frames behaves as CaptureClip states |

## Left out

- The editor script `Assets/Scripts/Editor/AnimationCaptureHelperEditor.cs` is not part of this model. It holds inspector UI, the coroutine pump, save dialogs, PNG encoding and file writes.
- Rendering is not modelled:
  - `Camera.Render` and `RenderWithShader` produce a symbolic shot whose pixels come from the `Scene` parameter.
  - `Shader.Find` is not modelled.
  - `Texture2D.Apply` (the GPU upload) is not modelled.
  - Texture formats, filter modes, anti-aliasing and hide flags are not modelled.
- AnimationCapture.AnimationCaptureHelper.SampleAnimation: the pose it applies to the target is a `Sample(time)` trace event; the engine call that poses the target is not modelled.
  - The target carries no pose state. `Camera.Render` takes the pose time as an argument, and `RenderCell` passes the same `currentTime` that was given to `SampleAnimation`.
  - So the fact that a render shows the pose just sampled (`RenderAfterYieldAfterSample`) rests on the caller passing the same value. No pose stored on the target enforces it.
- AtlasLayout.SqrtCeil: `Mathf.CeilToInt(Mathf.Sqrt(input))` in single-precision floats becomes an exact integer ceiling square root on naturals. Float rounding for very large inputs and negative inputs are not modelled.
- AtlasLayout.FrameCount: the product `length * framesPerSecond` is exact real arithmetic, not a 32-bit float product. The result is an unbounded integer. At line 78 the `(int)` cast of a product of 2^31 or more, or below -2^31, gives an unspecified value, and the model does not capture that.
- CaptureSpec.SampleTime: `(frame / (float)numFrames) * length` is exact real arithmetic.
- Colours are opaque values that are never computed with.
- AtlasLayout.AtlasSize: the products `_cellSize.x * gridCellCount` and `_cellSize.y * gridCellCount` at line 80 use unbounded integers, so their 32-bit wrap-around is not modelled.
  - The wrap happens once a product reaches 2^31.
  - The grid side can reach 46341 (the ceiled square root of a frame count near 2^31), so a cell side of 46341 pixels is already enough.
  - The subtractions that derive positions from the atlas size, at line 81 and lines 133-139, are unbounded as well.
- AnimationCapture.AnimationCaptureHelper.ClearAtlas: the pixel count `texture.width * texture.height` at line 165 is an unbounded integer, so its 32-bit overflow is not modelled.
  - The product overflows once the atlas has 2^31 or more pixels, for example a square atlas of side 46341. Cells of 1000x1000 pixels and 2148 frames give a 47000x47000 atlas.
  - The oversize check at lines 83-87 only logs, so the source still reaches line 165 with such an atlas.
  - The engine's own limit on texture sizes is not modelled either.
- AnimationCapture.AnimationCaptureHelper.CaptureAnimation: requires a non-null camera, cells of at least one pixel, a non-negative clip length and at least one frame when configured.
  - The source dereferences the camera unchecked.
  - Zero frames would give a 0x0 atlas, for which the engine's texture constructor is not modelled.
- Exceptions thrown by `onComplete` or by engine calls are not modelled. Only the host disposing the coroutine at a `yield` is an early exit.
- A host that abandons the suspended enumerator without calling `Dispose()` is not modelled. Such a host skips the `finally` block, which leaves the camera's target texture set to the render texture and the background at the last pass colour, and never destroys the render texture. The editor pump at `Assets/Scripts/Editor/AnimationCaptureHelperEditor.cs:123-130` calls `MoveNext` until the enumerator ends and never calls `Dispose()`. The guarantees of the stop path (`stopAt`) assume a disposing host.
- The completion callback is modelled as the `Complete` trace event plus the `Completed` outcome carrying both atlases. What the callback does with them is outside this model.
- The editor-side re-entrancy guard and the scheduling of the coroutine are not modelled. Each run of `CaptureAnimation` is one sequential call.

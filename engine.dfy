/**
 * The parts of the game engine that the capture code drives: colours, integer
 * vectors, textures held in CPU memory, the off-screen render target, the
 * camera and the global render-target binding.  Rendering itself is not
 * modelled: a render stores a symbolic `Shot` in the camera's target texture,
 * and a `Scene` supplied by the caller says which colour every pixel of that
 * shot has.
 */
module Engine {
  import opened Wrappers
  import opened Arithmetic

  /** An RGBA colour.  Channels are kept as exact reals and never computed with. */
  datatype Color = Rgba(r: real, g: real, b: real, a: real)

  /** `Color.clear`: transparent black. */
  const Clear: Color := Rgba(0.0, 0.0, 0.0, 0.0)

  /** The flat normal (0, 0, 1) encoded as a colour, with zero alpha. */
  const NeutralNormal: Color := Rgba(0.5, 0.5, 1.0, 0.0)

  /** `Vector2Int`. */
  datatype Vec2 = Vec2(x: int, y: int)

  /** The two render passes: the ordinary shaded render and the view-space-normal shader override. */
  datatype Pass = Shaded | ViewSpaceNormal

  /** What one render of the camera shows: the target posed at clip time `pose`, drawn in `pass`
      over a cleared `background`. */
  datatype Shot = Shot(pose: real, pass: Pass, background: Color)

  /** The renderer, abstracted: the colour of pixel (u, v), counted from the bottom-left corner,
      of the cell-sized image the camera produces for a shot. */
  type Scene = (Shot, int, int) -> Color

  /** The object being animated; the model never looks inside it. */
  class GameObject {
    constructor () { }
  }

  /** A legacy animation clip; only its length in seconds matters here. */
  class AnimationClip {
    const length: real

    constructor (length: real)
      requires length >= 0.0
      ensures this.length == length
    {
      this.length := length;
    }
  }

  /** An off-screen render target of a fixed size.  `shot` is what was last rendered into it. */
  class RenderTexture {
    const width: int
    const height: int
    var shot: Option<Shot>
    var released: bool

    constructor (width: int, height: int)
      ensures this.width == width && this.height == height
      ensures shot == None && !released
    {
      this.width := width;
      this.height := height;
      shot := None;
      released := false;
    }

    /** `DestroyImmediate`: gives the GPU resource back. */
    method Release()
      modifies this
      ensures released && shot == old(shot)
    {
      released := true;
    }
  }

  /** The global render-target binding that `Graphics.SetRenderTarget` changes and `ReadPixels` reads. */
  class Graphics {
    var activeRenderTarget: RenderTexture?

    constructor ()
      ensures activeRenderTarget == null
    {
      activeRenderTarget := null;
    }
  }

  class Camera {
    var backgroundColor: Color
    var targetTexture: RenderTexture?

    constructor (backgroundColor: Color)
      ensures this.backgroundColor == backgroundColor && targetTexture == null
    {
      this.backgroundColor := backgroundColor;
      targetTexture := null;
    }

    /** `Render()` for the shaded pass, `RenderWithShader(normalShader, "")` for the normal pass:
        the target texture is cleared to the background colour and receives the target as posed at `pose`. */
    method Render(pose: real, pass: Pass)
      requires targetTexture != null
      modifies targetTexture
      ensures targetTexture.shot == Some(Shot(pose, pass, backgroundColor))
      ensures targetTexture.released == old(targetTexture.released)
    {
      targetTexture.shot := Some(Shot(pose, pass, backgroundColor));
    }
  }

  /** The index of pixel (x, y) in a row-major pixel array of `height` rows of `width` pixels,
      bottom row first; column and row are recovered from it by `%` and `/`. */
  function RowMajor(width: int, height: int, x: int, y: int): (i: int)
    requires 0 <= x < width && 0 <= y < height
    ensures 0 <= i < width * height
    ensures i % width == x && i / width == y
  {
    assert y * width + x < (y + 1) * width;
    assert (y + 1) * width <= height * width;
    DivModOfSum(y, width, x);
    y * width + x
  }

  /** A texture in CPU memory; `data[x, y]` is the pixel in column x of row y, row 0 at the bottom. */
  class Texture2D {
    const width: nat
    const height: nat
    const data: array2<Color>

    ghost predicate Valid()
      reads this
    {
      data.Length0 == width && data.Length1 == height
    }

    constructor (width: nat, height: nat)
      ensures Valid() && fresh(data)
      ensures this.width == width && this.height == height
    {
      this.width := width;
      this.height := height;
      data := new Color[width, height];
    }

    /** `SetPixels`: replaces every pixel from a row-major array, bottom row first. */
    method SetPixels(pixels: array<Color>)
      requires Valid() && pixels.Length == width * height
      modifies data
      ensures forall x, y :: 0 <= x < width && 0 <= y < height ==> data[x, y] == pixels[RowMajor(width, height, x, y)]
    {
      var y := 0;
      while y < height
        invariant 0 <= y <= height
        invariant forall x', y' :: 0 <= x' < width && 0 <= y' < y ==> data[x', y'] == pixels[RowMajor(width, height, x', y')]
      {
        var x := 0;
        while x < width
          invariant 0 <= x <= width
          invariant forall x', y' :: 0 <= x' < width && 0 <= y' < y ==> data[x', y'] == pixels[RowMajor(width, height, x', y')]
          invariant forall x' :: 0 <= x' < x ==> data[x', y] == pixels[RowMajor(width, height, x', y)]
        {
          data[x, y] := pixels[RowMajor(width, height, x, y)];
          x := x + 1;
        }
        y := y + 1;
      }
    }

    /** `ReadPixels(new Rect(0, 0, source.width, source.height), destX, destY)`: copies the whole
        of `source` into the rectangle whose bottom-left corner is (destX, destY), overwriting it
        and leaving every other pixel as it was. */
    method ReadPixels(source: RenderTexture, scene: Scene, destX: int, destY: int)
      requires Valid() && source.shot.Some?
      requires 0 <= destX && 0 <= source.width && destX + source.width <= width
      requires 0 <= destY && 0 <= source.height && destY + source.height <= height
      modifies data
      ensures forall x, y :: 0 <= x < width && 0 <= y < height ==>
        data[x, y] == if destX <= x < destX + source.width && destY <= y < destY + source.height
                      then scene(source.shot.value, x - destX, y - destY)
                      else old(data[x, y])
    {
      var shot := source.shot.value;
      var v := 0;
      while v < source.height
        invariant 0 <= v <= source.height
        invariant forall x, y :: 0 <= x < width && 0 <= y < height ==>
          data[x, y] == if destX <= x < destX + source.width && destY <= y < destY + v
                        then scene(shot, x - destX, y - destY)
                        else old(data[x, y])
      {
        var u := 0;
        while u < source.width
          invariant 0 <= u <= source.width
          invariant forall x, y :: 0 <= x < width && 0 <= y < height ==>
            data[x, y] == if (destX <= x < destX + source.width && destY <= y < destY + v)
                             || (destX <= x < destX + u && y == destY + v)
                          then scene(shot, x - destX, y - destY)
                          else old(data[x, y])
        {
          data[destX + u, destY + v] := scene(shot, u, v);
          u := u + 1;
        }
        v := v + 1;
      }
    }
  }
}

/**
 * The integer and decision logic of the WebGL texture wrapper (Texture.ts):
 * how many bytes a texture occupies, which sampling properties an image
 * texture gets, how an image's dimensions are rounded and capped, when six
 * images make a cube map, the write-once byte count of a texture handle,
 * when a 2D texture is re-uploaded, and the byte buffer whose writes mark it
 * as modified. The WebGL calls themselves are not modelled.
 */
module Textures {

  import opened Wrappers

  /** An element of a `Uint8Array`. */
  newtype byte = x: int | 0 <= x < 256

  /** `GL.Texture.Format`: the two formats the byte count distinguishes, and the rest. */
  datatype TextureFormat = Rgb | Rgba | OtherFormat

  /** `GL.Texture.DataType`: one byte per component, or four. */
  datatype DataType = UnsignedByte | Float | OtherDataType

  datatype WrapMode = Repeat | MirroredRepeat | ClampToEdge

  /** `RenderTexture.Type`. */
  datatype TextureType = Normal | Glyph | TileSection | SkyBox

  function Min(a: nat, b: nat): nat {
    if a <= b then a else b
  }

  // ---------------------------------------------------------------------
  // Byte counts (Texture.ts:19-32)
  // ---------------------------------------------------------------------

  function BytesPerComponent(t: DataType): nat {
    if t == UnsignedByte then 1 else 4
  }

  function ComponentsPerPixel(f: TextureFormat): nat {
    match f
    case Rgb => 3
    case Rgba => 4
    case OtherFormat => 1
  }

  /** `computeBytesUsed`: pixels times components per pixel times bytes per component. */
  function ComputeBytesUsed(width: nat, height: nat, format: TextureFormat, dataType: DataType): (n: nat)
    ensures n == 0 <==> width == 0 || height == 0
    ensures n >= width * height
    ensures n <= 16 * (width * height)
  {
    width * height * ComponentsPerPixel(format) * BytesPerComponent(dataType)
  }

  /** An RGBA texture of bytes takes four bytes per pixel. */
  lemma RgbaBytes(width: nat, height: nat)
    ensures ComputeBytesUsed(width, height, Rgba, UnsignedByte) == 4 * (width * height)
  {
  }

  /** A float texture takes four times the bytes of the same texture of bytes. */
  lemma FloatIsFourBytes(width: nat, height: nat, format: TextureFormat, dataType: DataType)
    requires dataType != UnsignedByte
    ensures ComputeBytesUsed(width, height, format, dataType) == 4 * ComputeBytesUsed(width, height, format, UnsignedByte)
  {
    var p := width * height * ComponentsPerPixel(format);
    assert ComputeBytesUsed(width, height, format, dataType) == p * 4;
    assert ComputeBytesUsed(width, height, format, UnsignedByte) == p * 1;
  }

  /**
   * The byte count of a cube map (Texture.ts:74): six faces of `dim` by
   * `dim` RGBA bytes.
   */
  lemma CubeBytes(dim: nat)
    ensures ComputeBytesUsed(dim * 6, dim, Rgba, UnsignedByte) == 24 * (dim * dim)
  {
    calc {
      ComputeBytesUsed(dim * 6, dim, Rgba, UnsignedByte);
      dim * 6 * dim * 4 * 1;
      { assert dim * 6 * dim == 6 * (dim * dim); }
      6 * (dim * dim) * 4;
      24 * (dim * dim);
    }
  }

  // ---------------------------------------------------------------------
  // Image properties (Texture.ts:211-221)
  // ---------------------------------------------------------------------

  datatype ImageProperties = ImageProperties(
    format: TextureFormat,
    wrapMode: WrapMode,
    useMipMaps: bool,
    interpolate: bool)

  /** `getImageProperties`. */
  function GetImageProperties(isTranslucent: bool, t: TextureType): (p: ImageProperties)
    ensures p.wrapMode == Repeat <==> t == Normal
    ensures p.wrapMode == Repeat || p.wrapMode == ClampToEdge
    ensures p.useMipMaps <==> t != SkyBox && t != TileSection
    ensures p.format == Rgba <==> isTranslucent
    ensures p.format == Rgba || p.format == Rgb
    ensures p.interpolate
  {
    var isSky := t == SkyBox;
    var isTile := t == TileSection;
    ImageProperties(
      if isTranslucent then Rgba else Rgb,
      if t == Normal then Repeat else ClampToEdge,
      !isSky && !isTile,
      true)
  }

  // ---------------------------------------------------------------------
  // Powers of two
  // ---------------------------------------------------------------------

  /** `n` is 2 to some power. */
  predicate IsPow2(n: nat)
    decreases n
  {
    n == 1 || (n >= 2 && n % 2 == 0 && IsPow2(n / 2))
  }

  /** `isPowerOfTwo`: `n & (n - 1)` is 0, which holds of 0 as well. */
  predicate IsPowerOfTwo(n: nat) {
    n == 0 || IsPow2(n)
  }

  /** The first power of two from `p` upwards that is at least `n`. */
  function PowerAtLeast(n: nat, p: nat): (r: nat)
    requires n > 0 && IsPow2(p) && p < 2 * n
    ensures IsPow2(r) && n <= r < 2 * n
    decreases n - p
  {
    if p >= n then p
    else
      assert (2 * p) / 2 == p;
      PowerAtLeast(n, 2 * p)
  }

  /**
   * `nextHighestPowerOfTwo`: 0 stays 0; otherwise the least power of two
   * that is at least `n`, which is below `2 * n`.
   */
  function NextPowerOfTwo(n: nat): (r: nat)
    ensures n == 0 ==> r == 0
    ensures n > 0 ==> IsPow2(r) && n <= r < 2 * n
  {
    if n == 0 then 0 else PowerAtLeast(n, 1)
  }

  /** A power of two is its own next power of two. */
  lemma {:induction false} NextPowerOfPower(n: nat)
    requires IsPowerOfTwo(n)
    ensures NextPowerOfTwo(n) == n
  {
    if n > 0 {
      var r := NextPowerOfTwo(n);
      PowersBetween(n, r);
    }
  }

  /** Two powers of two with `a <= b < 2 * a` are equal. */
  lemma {:induction false} PowersBetween(a: nat, b: nat)
    requires IsPow2(a) && IsPow2(b) && a <= b < 2 * a
    ensures a == b
    decreases a
  {
    if a > 1 {
      assert b >= 2;
      PowersBetween(a / 2, b / 2);
    } else {
      assert b == 1;
    }
  }

  // ---------------------------------------------------------------------
  // Dimensions of an image texture (Texture.ts:167-209)
  // ---------------------------------------------------------------------

  datatype ImageSize = ImageSize(naturalWidth: nat, naturalHeight: nat)

  /** The two capabilities of the rendering system that `createForImage` consults. */
  datatype Capabilities = Capabilities(supportsNonPowerOf2Textures: bool, maxTextureSize: nat)

  /**
   * What `createForImage` settles before the upload: the target size, the
   * properties, and whether the image has to be redrawn on a canvas of
   * that size.
   */
  datatype ImageTarget = ImageTarget(width: nat, height: nat, props: ImageProperties, resized: bool)

  /**
   * The cases in which the dimensions are rounded up to powers of two: a
   * glyph always, and a normal (repeating) texture on a system that cannot
   * use other sizes.
   */
  predicate RoundsToPowerOfTwo(image: ImageSize, t: TextureType, caps: Capabilities) {
    || t == Glyph
    || (t == Normal && !caps.supportsNonPowerOf2Textures
        && (!IsPowerOfTwo(image.naturalWidth) || !IsPowerOfTwo(image.naturalHeight)))
  }

  /** The dimension logic of `createForImage`. */
  function TargetForImage(image: ImageSize, hasAlpha: bool, t: TextureType, caps: Capabilities): (r: ImageTarget)
    ensures r.width <= caps.maxTextureSize && r.height <= caps.maxTextureSize
    ensures RoundsToPowerOfTwo(image, t, caps) ==>
      r.width == Min(NextPowerOfTwo(image.naturalWidth), caps.maxTextureSize)
      && r.height == Min(NextPowerOfTwo(image.naturalHeight), caps.maxTextureSize)
    ensures !RoundsToPowerOfTwo(image, t, caps) ==>
      r.width == Min(image.naturalWidth, caps.maxTextureSize)
      && r.height == Min(image.naturalHeight, caps.maxTextureSize)
    ensures r.resized <==> r.width != image.naturalWidth || r.height != image.naturalHeight
  {
    var props := GetImageProperties(hasAlpha, t);
    var w := image.naturalWidth;
    var h := image.naturalHeight;
    var npot := !caps.supportsNonPowerOf2Textures && (!IsPowerOfTwo(w) || !IsPowerOfTwo(h));
    var round := t == Glyph || (npot && props.wrapMode == Repeat);
    var props' := if t != Glyph && npot && props.wrapMode == ClampToEdge then props.(useMipMaps := false) else props;
    var tw := Min(if round then NextPowerOfTwo(w) else w, caps.maxTextureSize);
    var th := Min(if round then NextPowerOfTwo(h) else h, caps.maxTextureSize);
    ImageTarget(tw, th, props', tw != w || th != h)
  }

  /**
   * Where the dimensions are rounded, and the size limit is itself a power
   * of two, the result is a pair of powers of two; within the limit, each
   * is the least power of two that fits the image.
   */
  lemma RoundedDimensionsArePowersOfTwo(image: ImageSize, hasAlpha: bool, t: TextureType, caps: Capabilities)
    requires RoundsToPowerOfTwo(image, t, caps) && IsPowerOfTwo(caps.maxTextureSize)
    ensures var r := TargetForImage(image, hasAlpha, t, caps);
      IsPowerOfTwo(r.width) && IsPowerOfTwo(r.height)
      && (NextPowerOfTwo(image.naturalWidth) <= caps.maxTextureSize ==> r.width >= image.naturalWidth)
      && (NextPowerOfTwo(image.naturalHeight) <= caps.maxTextureSize ==> r.height >= image.naturalHeight)
  {
  }

  /**
   * The cap is applied after rounding, so a limit that is not a power of
   * two can undo the rounding: a 120-pixel glyph under a limit of 100 is
   * 100 pixels wide.
   */
  lemma CapCanUndoRounding()
    ensures var r := TargetForImage(ImageSize(120, 64), true, Glyph, Capabilities(true, 100));
      r.width == 100 && !IsPowerOfTwo(r.width) && r.resized
  {
    var n := NextPowerOfTwo(120);
    assert n == 128 by {
      assert IsPow2(128) by {
        assert IsPow2(64) by { assert IsPow2(32) by { assert IsPow2(16) by { assert IsPow2(8) by { assert IsPow2(4) by { assert IsPow2(2); } } } } }
      }
      PowersBetween(n, 128);
    }
    assert !IsPow2(100) by { assert !IsPow2(25); }
  }

  /**
   * An image whose size the system accepts and which fits the limit is
   * uploaded as it is.
   */
  lemma AcceptedImageIsKept(image: ImageSize, hasAlpha: bool, t: TextureType, caps: Capabilities)
    requires t != Glyph
    requires caps.supportsNonPowerOf2Textures || (IsPowerOfTwo(image.naturalWidth) && IsPowerOfTwo(image.naturalHeight))
    requires image.naturalWidth <= caps.maxTextureSize && image.naturalHeight <= caps.maxTextureSize
    ensures var r := TargetForImage(image, hasAlpha, t, caps);
      r.width == image.naturalWidth && r.height == image.naturalHeight && !r.resized
  {
  }

  /**
   * The properties `createForImage` uses are always those of
   * `getImageProperties`: mipmaps are turned off only for a clamped texture
   * of a size the system cannot use, and the clamped types that reach that
   * branch (tile sections and sky boxes) have no mipmaps to begin with.
   */
  lemma ImagePropertiesKept(image: ImageSize, hasAlpha: bool, t: TextureType, caps: Capabilities)
    ensures TargetForImage(image, hasAlpha, t, caps).props == GetImageProperties(hasAlpha, t)
  {
  }

  // ---------------------------------------------------------------------
  // Cube maps (Texture.ts:227-251)
  // ---------------------------------------------------------------------

  datatype CubeParams = CubeParams(dim: nat, format: TextureFormat, dataType: DataType, wrapMode: WrapMode)

  /**
   * `createForCubeImages`: the six faces must all be square with the side
   * of `posX`; otherwise there is no cube map.
   */
  method CreateForCubeImages(posX: ImageSize, negX: ImageSize, posY: ImageSize, negY: ImageSize,
                             posZ: ImageSize, negZ: ImageSize)
    returns (r: Option<CubeParams>)
    ensures var faces := [posX, negX, posY, negY, posZ, negZ];
      r.Some? <==> forall i :: 0 <= i < 6 ==>
        faces[i].naturalWidth == posX.naturalWidth && faces[i].naturalHeight == posX.naturalWidth
    ensures r.Some? ==> r.value == CubeParams(posX.naturalWidth, Rgba, UnsignedByte, ClampToEdge)
  {
    var targetDim := posX.naturalWidth;
    var images := [posX, negX, posY, negY, posZ, negZ];
    if posX.naturalHeight != targetDim {
      assert images[0] == posX;
      return None;
    }
    var i := 1;
    while i < |images|
      invariant 1 <= i <= |images|
      invariant forall j :: 0 <= j < i ==>
        images[j].naturalWidth == targetDim && images[j].naturalHeight == targetDim
    {
      if images[i].naturalWidth != targetDim || images[i].naturalHeight != targetDim {
        return None;
      }
      i := i + 1;
    }
    r := Some(CubeParams(targetDim, Rgba, UnsignedByte, ClampToEdge));
  }

  /** The parameters `createForImageBuffer` and `createForImage` pass on (Texture.ts:137-147). */
  datatype Texture2DParams = Texture2DParams(
    width: nat,
    height: nat,
    format: TextureFormat,
    dataType: DataType,
    dataBytes: Option<seq<byte>>)

  // ---------------------------------------------------------------------
  // Texture handles (Texture.ts:256-488)
  // ---------------------------------------------------------------------

  /** A 2D texture handle, with the `bytesUsed` field of `TextureHandle`. */
  class Texture2DHandle {
    var bytesUsed: nat
    var hasGlTexture: bool       // `_glTexture` is set (not disposed)
    const width: nat
    const height: nat
    const format: TextureFormat
    const dataType: DataType
    const dataBytes: Option<seq<byte>>

    /**
     * The constructor (Texture.ts:418-427) with `loadTexture2DImageData`
     * (Texture.ts:35-36): the byte count is that of the data when bytes are
     * uploaded, and computed from the parameters otherwise.
     */
    constructor (params: Texture2DParams, uploadedBytes: Option<nat>)
      ensures hasGlTexture && width == params.width && height == params.height
      ensures format == params.format && dataType == params.dataType && dataBytes == params.dataBytes
      ensures bytesUsed == if uploadedBytes.Some? then uploadedBytes.value
        else ComputeBytesUsed(params.width, params.height, params.format, params.dataType)
    {
      width := params.width;
      height := params.height;
      format := params.format;
      dataType := params.dataType;
      dataBytes := params.dataBytes;
      hasGlTexture := true;
      bytesUsed := 0;
      new;
      SetBytesUsed(if uploadedBytes.Some? then uploadedBytes.value
        else ComputeBytesUsed(params.width, params.height, params.format, params.dataType));
    }

    /** The `bytesUsed` setter (Texture.ts:266-269): the count may be set only while it is 0. */
    method SetBytesUsed(n: nat)
      requires bytesUsed == 0
      modifies this
      ensures bytesUsed == n && hasGlTexture == old(hasGlTexture)
    {
      bytesUsed := n;
    }

    /** `dispose` (Texture.ts:282-287). */
    method Dispose()
      modifies this
      ensures !hasGlTexture && bytesUsed == old(bytesUsed)
    {
      if hasGlTexture {
        hasGlTexture := false;
      }
    }

    /**
     * `update` (Texture.ts:361-371) with `replaceTextureData`
     * (Texture.ts:374-390): the texture is re-uploaded, answering true, only
     * if it has a size and retained bytes, the updater was modified, and the
     * GL texture has not been disposed.
     */
    method Update(updater: Texture2DDataUpdater) returns (ok: bool)
      ensures ok <==> (width != 0 && height != 0 && dataBytes.Some? && |dataBytes.value| != 0
                      && updater.modified && hasGlTexture)
    {
      if width == 0 || height == 0 || dataBytes.None? || |dataBytes.value| == 0 {
        return false;
      }
      if !updater.modified {
        return false;
      }
      ok := ReplaceTextureData();
    }

    /** `replaceTextureData`: false once the GL texture is gone. */
    method ReplaceTextureData() returns (ok: bool)
      ensures ok <==> hasGlTexture
    {
      if !hasGlTexture {
        return false;
      }
      ok := true;
    }
  }

  /** A cube-map texture handle (Texture.ts:431-488). */
  class TextureCubeHandle {
    var bytesUsed: nat
    const dim: nat
    const format: TextureFormat
    const dataType: DataType

    /**
     * The constructor with `loadTextureCubeImageData` (Texture.ts:73-74):
     * the byte count covers six faces of `dim` by `dim` pixels.
     */
    constructor (params: CubeParams)
      requires params.format == Rgba && params.dataType == UnsignedByte
      ensures dim == params.dim && format == Rgba && dataType == UnsignedByte
      ensures bytesUsed == 24 * (dim * dim)
    {
      dim := params.dim;
      format := params.format;
      dataType := params.dataType;
      CubeBytes(params.dim);
      bytesUsed := ComputeBytesUsed(params.dim * 6, params.dim, params.format, params.dataType);
    }
  }

  // ---------------------------------------------------------------------
  // Texture2DDataUpdater (Texture.ts:491-513)
  // ---------------------------------------------------------------------

  /** What a `Uint8Array` stores for an integer: its value modulo 256. */
  function ToUint8(v: int): byte {
    (v % 256) as byte
  }

  class Texture2DDataUpdater {
    const data: array<byte>
    var modified: bool

    constructor (data: array<byte>)
      ensures this.data == data && !modified
    {
      this.data := data;
      modified := false;
    }

    /**
     * `setByteAtIndex`: a value different from the stored byte is written
     * (modulo 256, as a `Uint8Array` stores it) and marks the buffer
     * modified; an equal value changes nothing. Every other byte is left
     * alone.
     */
    method SetByteAtIndex(index: nat, value: int)
      requires index < data.Length
      modifies this, data
      ensures value == old(data[index]) as int ==> data[..] == old(data[..]) && modified == old(modified)
      ensures value != old(data[index]) as int ==> data[..] == old(data[..])[index := ToUint8(value)] && modified
    {
      if value != data[index] as int {
        data[index] := ToUint8(value);
        modified := true;
      }
    }

    /**
     * `setOvrFlagsAtIndex`: the same rule for a flags value, which the
     * byte array also stores modulo 256.
     */
    method SetOvrFlagsAtIndex(index: nat, value: int)
      requires index < data.Length
      modifies this, data
      ensures value == old(data[index]) as int ==> data[..] == old(data[..]) && modified == old(modified)
      ensures value != old(data[index]) as int ==> data[..] == old(data[..])[index := ToUint8(value)] && modified
    {
      if value != data[index] as int {
        data[index] := ToUint8(value);
        modified := true;
      }
    }

    /** `getByteAtIndex`. */
    function GetByteAtIndex(index: nat): byte
      reads data
      requires index < data.Length
    {
      data[index]
    }

    /** `getFlagsAtIndex`: the byte at the index, read as flags. */
    function GetFlagsAtIndex(index: nat): byte
      reads data
      requires index < data.Length
    {
      GetByteAtIndex(index)
    }
  }

  /**
   * Writing 256 over a 0 byte stores 0 again, yet marks the buffer
   * modified, because the comparison is made before the value is reduced.
   */
  method WrappedWrite(u: Texture2DDataUpdater, index: nat)
    requires index < u.data.Length && u.data[index] == 0
    modifies u, u.data
    ensures u.data[..] == old(u.data[..]) && u.modified
  {
    u.SetByteAtIndex(index, 256);
  }
}

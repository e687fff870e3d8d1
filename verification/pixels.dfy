/** Decoded glTF images converted to 8-bit RGBA pixels, by the asset loader (which
    treats two-channel images as luminance plus alpha) and by the simple glTF
    loader (which fills missing channels with zero). */
module Pixels {
  import opened Wrappers
  import opened Bits

  /** `gltf::image::Format`. */
  datatype Format =
    | R8 | R8G8 | R8G8B8 | R8G8B8A8
    | R16 | R16G16 | R16G16B16 | R16G16B16A16
    | R32G32B32FLOAT | R32G32B32A32FLOAT

  datatype ImageError =
    | Support(message: string)   // the 16- and 32-bit formats
    | IndexOutOfBounds           // the source buffer is shorter than the pixels read
    | Overflow                   // `width * height` past `u32::MAX`

  /** Bytes per source pixel, for the 8-bit formats only. */
  function PixelSize(f: Format): (r: Option<nat>)
    ensures r.Some? <==> f in {R8, R8G8, R8G8B8, R8G8B8A8}
    ensures r.Some? ==> 1 <= r.value <= 4
  {
    match f
    case R8 => Some(1)
    case R8G8 => Some(2)
    case R8G8B8 => Some(3)
    case R8G8B8A8 => Some(4)
    case _ => None
  }

  const UNSUPPORTED := Support("16 bytes images")

  // ---------------------------------------------------------------------------
  // Asset loader: a fixed number of pixels, luminance for one and two channels

  /** Output pixel `i`: one channel is luminance with an opaque alpha, two are
      luminance and alpha, three get an opaque alpha, four are copied. */
  function LumaPixel(pixels: seq<Byte>, f: Format, i: nat): (r: seq<Byte>)
    requires PixelSize(f).Some? && (i + 1) * PixelSize(f).value <= |pixels|
    ensures |r| == 4
  {
    match f
    case R8 => [pixels[i], pixels[i], pixels[i], U8_MAX]
    case R8G8 => [pixels[2 * i], pixels[2 * i], pixels[2 * i], pixels[2 * i + 1]]
    case R8G8B8 => [pixels[3 * i], pixels[3 * i + 1], pixels[3 * i + 2], U8_MAX]
    case R8G8B8A8 => [pixels[4 * i], pixels[4 * i + 1], pixels[4 * i + 2], pixels[4 * i + 3]]
  }

  /** The iterator from pixel `i` on: it stops when `i` reaches the pixel count
      and reads pixel `i` at byte `i * size` otherwise; a read past the end of
      the source is an out-of-bounds failure. */
  function LumaFrom(pixels: seq<Byte>, f: Format, i: nat, n: nat): (r: Result<seq<Byte>, ImageError>)
    requires PixelSize(f).Some? && i <= n
    decreases n - i
  {
    if i == n then Success([])
    else if (i + 1) * PixelSize(f).value > |pixels| then Failure(IndexOutOfBounds)
    else
      var rest :- LumaFrom(pixels, f, i + 1, n);
      Success(LumaPixel(pixels, f, i) + rest)
  }

  /** `PixelIter::new(image, pixel_count)` flattened: the format check first,
      then `pixel_count` pixels. */
  function ExpandLuma(pixels: seq<Byte>, f: Format, pixelCount: nat): (r: Result<seq<Byte>, ImageError>)
    ensures PixelSize(f).None? ==> r == Failure(UNSUPPORTED)
  {
    var _ :- PixelSize(f).ToResult(UNSUPPORTED);
    LumaFrom(pixels, f, 0, pixelCount)
  }

  /** From pixel `i`, the conversion succeeds exactly when the source holds all
      `n` pixels, and then yields four bytes per pixel. */
  lemma {:induction false} LumaFromSucceeds(pixels: seq<Byte>, f: Format, i: nat, n: nat)
    requires PixelSize(f).Some? && i <= n
    ensures var r := LumaFrom(pixels, f, i, n);
      && (r.Success? <==> i == n || n * PixelSize(f).value <= |pixels|)
      && (r.Success? ==> |r.value| == 4 * (n - i))
    decreases n - i
  {
    if i < n {
      MulMonoLe(i + 1, n, PixelSize(f).value);
      LumaFromSucceeds(pixels, f, i + 1, n);
    }
  }

  /** A successful conversion from pixel `i` is pixel `i` followed by the
      conversion from pixel `i + 1`. */
  lemma LumaFromUnfold(pixels: seq<Byte>, f: Format, i: nat, n: nat)
    requires PixelSize(f).Some? && i < n
    requires LumaFrom(pixels, f, i, n).Success?
    ensures (i + 1) * PixelSize(f).value <= |pixels|
    ensures LumaFrom(pixels, f, i + 1, n).Success?
    ensures LumaFrom(pixels, f, i, n).value
         == LumaPixel(pixels, f, i) + LumaFrom(pixels, f, i + 1, n).value
  {
  }

  /** Pixel `k` of a successful conversion from pixel `i` sits at output byte
      `4 * (k - i)`. */
  lemma {:induction false} LumaFromAt(pixels: seq<Byte>, f: Format, i: nat, n: nat, k: nat)
    requires PixelSize(f).Some? && i <= k < n
    requires LumaFrom(pixels, f, i, n).Success?
    ensures (k + 1) * PixelSize(f).value <= |pixels|
    ensures var r := LumaFrom(pixels, f, i, n).value;
      4 * (k - i) + 4 <= |r| && r[4 * (k - i)..4 * (k - i) + 4] == LumaPixel(pixels, f, k)
    decreases k - i
  {
    LumaFromUnfold(pixels, f, i, n);
    var head := LumaPixel(pixels, f, i);
    var rest := LumaFrom(pixels, f, i + 1, n).value;
    if k > i {
      LumaFromAt(pixels, f, i + 1, n, k);
      BlockOfConcat(head, rest, k - i);
    } else {
      assert (head + rest)[..4] == head;
    }
  }

  /** The whole conversion: success exactly for a supported format whose source
      holds `n` pixels, and then `n` pixels of four bytes in order. */
  lemma LumaShape(pixels: seq<Byte>, f: Format, n: nat)
    ensures var r := ExpandLuma(pixels, f, n);
      && (r.Success? <==> PixelSize(f).Some? && n * PixelSize(f).value <= |pixels|)
      && (r.Success? ==> |r.value| == 4 * n)
      && (r.Success? ==> forall k :: 0 <= k < n ==>
            && (k + 1) * PixelSize(f).value <= |pixels|
            && r.value[4 * k..4 * k + 4] == LumaPixel(pixels, f, k))
  {
    if PixelSize(f).Some? {
      LumaFromSucceeds(pixels, f, 0, n);
      var r := ExpandLuma(pixels, f, n);
      if r.Success? {
        forall k | 0 <= k < n
          ensures (k + 1) * PixelSize(f).value <= |pixels|
          ensures r.value[4 * k..4 * k + 4] == LumaPixel(pixels, f, k)
        {
          LumaFromAt(pixels, f, 0, n, k);
        }
      }
    }
  }

  /** One and two channels are luminance: the three colour channels of every
      output pixel are equal. */
  lemma LumaIsGrey(pixels: seq<Byte>, f: Format, i: nat)
    requires f in {R8, R8G8} && (i + 1) * PixelSize(f).value <= |pixels|
    ensures var p := LumaPixel(pixels, f, i); p[0] == p[1] == p[2]
  {
  }

  /** A four-channel image comes out exactly as it went in. */
  lemma {:induction false} RgbaIsCopied(pixels: seq<Byte>, i: nat, n: nat)
    requires i <= n && |pixels| == 4 * n
    ensures LumaFrom(pixels, R8G8B8A8, i, n) == Success(pixels[4 * i..])
    decreases n - i
  {
    if i < n {
      RgbaIsCopied(pixels, i + 1, n);
      var p := LumaPixel(pixels, R8G8B8A8, i);
      assert LumaFrom(pixels, R8G8B8A8, i, n) == Success(p + pixels[4 * (i + 1)..]);
      assert p == pixels[4 * i..4 * i + 4];
      assert pixels[4 * i..] == pixels[4 * i..4 * i + 4] + pixels[4 * (i + 1)..];
    } else {
      assert pixels[4 * i..] == [];
    }
  }

  // ---------------------------------------------------------------------------
  // glTF loader: every source pixel, missing channels zero

  /** The pixel at byte `pos`: channels the format lacks are zero, alpha opaque. */
  function ZeroFillPixel(pixels: seq<Byte>, f: Format, pos: nat): (r: seq<Byte>)
    requires PixelSize(f).Some? && pos + PixelSize(f).value <= |pixels|
    ensures |r| == 4
  {
    match f
    case R8 => [pixels[pos], 0, 0, U8_MAX]
    case R8G8 => [pixels[pos], pixels[pos + 1], 0, U8_MAX]
    case R8G8B8 => [pixels[pos], pixels[pos + 1], pixels[pos + 2], U8_MAX]
    case R8G8B8A8 => [pixels[pos], pixels[pos + 1], pixels[pos + 2], pixels[pos + 3]]
  }

  /** The iterator from byte `pos`: it stops when the position equals the
      length, reads one pixel and advances by the pixel size otherwise; a pixel
      that runs past the end is an out-of-bounds read. */
  function ZeroFillFrom(pixels: seq<Byte>, f: Format, pos: nat): (r: Result<seq<Byte>, ImageError>)
    requires PixelSize(f).Some? && pos <= |pixels|
    decreases |pixels| - pos
  {
    var size := PixelSize(f).value;
    if pos == |pixels| then Success([])
    else if pos + size > |pixels| then Failure(IndexOutOfBounds)
    else
      var rest :- ZeroFillFrom(pixels, f, pos + size);
      Success(ZeroFillPixel(pixels, f, pos) + rest)
  }

  /** `gltf::Image::try_from`'s pixel conversion. */
  function ExpandZeroFill(pixels: seq<Byte>, f: Format): (r: Result<seq<Byte>, ImageError>)
    ensures PixelSize(f).None? ==> r == Failure(UNSUPPORTED)
  {
    var _ :- PixelSize(f).ToResult(UNSUPPORTED);
    ZeroFillFrom(pixels, f, 0)
  }

  /** From byte `pos`, the conversion succeeds exactly when the rest of the
      source is a whole number of pixels. */
  lemma {:induction false} ZeroFillSucceeds(pixels: seq<Byte>, f: Format, pos: nat)
    requires PixelSize(f).Some? && pos <= |pixels|
    ensures ZeroFillFrom(pixels, f, pos).Success? <==> (|pixels| - pos) % PixelSize(f).value == 0
    decreases |pixels| - pos
  {
    var size := PixelSize(f).value;
    var left := |pixels| - pos;
    if pos < |pixels| {
      if pos + size > |pixels| {
        ModUnique(left, size, 0, left);
      } else {
        ZeroFillSucceeds(pixels, f, pos + size);
        var q := (left - size) / size;
        var rem := (left - size) % size;
        ModUnique(left, size, q + 1, rem);
      }
    }
  }

  /** With `k` whole pixels left from byte `pos`, a successful conversion yields
      four bytes per pixel. */
  lemma {:induction false} ZeroFillLength(pixels: seq<Byte>, f: Format, pos: nat, k: nat)
    requires PixelSize(f).Some? && pos + k * PixelSize(f).value == |pixels|
    requires ZeroFillFrom(pixels, f, pos).Success?
    ensures |ZeroFillFrom(pixels, f, pos).value| == 4 * k
    decreases k
  {
    if k > 0 {
      MulSucc(k - 1, PixelSize(f).value);
      ZeroFillLength(pixels, f, pos + PixelSize(f).value, k - 1);
    }
  }

  /** A successful conversion from byte `pos` short of the end is the pixel
      at `pos` followed by the conversion from the next pixel. */
  lemma ZeroFillUnfold(pixels: seq<Byte>, f: Format, pos: nat)
    requires PixelSize(f).Some? && pos < |pixels|
    requires ZeroFillFrom(pixels, f, pos).Success?
    ensures pos + PixelSize(f).value <= |pixels|
    ensures ZeroFillFrom(pixels, f, pos + PixelSize(f).value).Success?
    ensures ZeroFillFrom(pixels, f, pos).value
         == ZeroFillPixel(pixels, f, pos) + ZeroFillFrom(pixels, f, pos + PixelSize(f).value).value
  {
  }

  /** Source pixel `i` counted from byte `pos` sits at output byte `4 * i`. */
  lemma {:induction false} ZeroFillAt(pixels: seq<Byte>, f: Format, pos: nat, k: nat, i: nat)
    requires PixelSize(f).Some? && pos + k * PixelSize(f).value == |pixels| && i < k
    requires ZeroFillFrom(pixels, f, pos).Success?
    ensures pos + i * PixelSize(f).value + PixelSize(f).value <= |pixels|
    ensures var r := ZeroFillFrom(pixels, f, pos).value;
      4 * i + 4 <= |r| && r[4 * i..4 * i + 4] == ZeroFillPixel(pixels, f, pos + i * PixelSize(f).value)
    decreases i, 1
  {
    if i == 0 {
      ZeroFillFirst(pixels, f, pos, k);
    } else {
      ZeroFillLater(pixels, f, pos, k, i);
    }
  }

  /** ZeroFillAt for the first pixel: the output starts with it. */
  lemma ZeroFillFirst(pixels: seq<Byte>, f: Format, pos: nat, k: nat)
    requires PixelSize(f).Some? && pos + k * PixelSize(f).value == |pixels| && 0 < k
    requires ZeroFillFrom(pixels, f, pos).Success?
    ensures pos + PixelSize(f).value <= |pixels|
    ensures var r := ZeroFillFrom(pixels, f, pos).value;
      4 <= |r| && r[0..4] == ZeroFillPixel(pixels, f, pos)
  {
    var size := PixelSize(f).value;
    MulSucc(k - 1, size);
    ZeroFillUnfold(pixels, f, pos);
    var head := ZeroFillPixel(pixels, f, pos);
    var rest := ZeroFillFrom(pixels, f, pos + size).value;
    assert (head + rest)[..4] == head;
  }

  /** ZeroFillAt for a later pixel: pixel `i` is pixel `i - 1` of the rest. */
  lemma {:induction false} ZeroFillLater(pixels: seq<Byte>, f: Format, pos: nat, k: nat, i: nat)
    requires PixelSize(f).Some? && pos + k * PixelSize(f).value == |pixels| && 0 < i < k
    requires ZeroFillFrom(pixels, f, pos).Success?
    ensures pos + i * PixelSize(f).value + PixelSize(f).value <= |pixels|
    ensures var r := ZeroFillFrom(pixels, f, pos).value;
      4 * i + 4 <= |r| && r[4 * i..4 * i + 4] == ZeroFillPixel(pixels, f, pos + i * PixelSize(f).value)
    decreases i, 0
  {
    var size := PixelSize(f).value;
    MulSucc(k - 1, size);
    ZeroFillUnfold(pixels, f, pos);
    var head := ZeroFillPixel(pixels, f, pos);
    var rest := ZeroFillFrom(pixels, f, pos + size).value;
    ZeroFillAt(pixels, f, pos + size, k - 1, i - 1);
    MulSucc(i - 1, size);
    assert pos + size + (i - 1) * size == pos + i * size;
    BlockOfConcat(head, rest, i);
  }

  /** Block `j` of four after a leading block of four is block `j - 1` of the
      rest. */
  lemma BlockOfConcat<T>(a: seq<T>, b: seq<T>, j: nat)
    requires |a| == 4 && 1 <= j && 4 * j + 4 <= |a| + |b|
    ensures (a + b)[4 * j..4 * j + 4] == b[4 * (j - 1)..4 * (j - 1) + 4]
  {
  }

  /** The whole conversion: success exactly for a supported format and a length
      that is a multiple of the pixel size, and then pixel `i` read at byte
      `i * size`, four bytes per source pixel. */
  lemma ZeroFillShape(pixels: seq<Byte>, f: Format)
    ensures var r := ExpandZeroFill(pixels, f);
      && (r.Success? <==> PixelSize(f).Some? && |pixels| % PixelSize(f).value == 0)
      && (r.Success? ==> |r.value| == 4 * (|pixels| / PixelSize(f).value))
      && (r.Success? ==> forall i :: 0 <= i < |pixels| / PixelSize(f).value ==>
            && i * PixelSize(f).value + PixelSize(f).value <= |pixels|
            && r.value[4 * i..4 * i + 4] == ZeroFillPixel(pixels, f, i * PixelSize(f).value))
  {
    if PixelSize(f).Some? {
      var size := PixelSize(f).value;
      ZeroFillSucceeds(pixels, f, 0);
      if |pixels| % size == 0 {
        var k := |pixels| / size;
        ModUnique(|pixels|, size, k, 0);
        ZeroFillLength(pixels, f, 0, k);
        var r := ExpandZeroFill(pixels, f);
        forall i | 0 <= i < k
          ensures i * size + size <= |pixels|
          ensures r.value[4 * i..4 * i + 4] == ZeroFillPixel(pixels, f, i * size)
        {
          ZeroFillAt(pixels, f, 0, k, i);
        }
      }
    }
  }

  /** On three and four channels both loaders read a pixel the same way. */
  lemma SamePixel(pixels: seq<Byte>, f: Format, k: nat)
    requires f in {R8G8B8, R8G8B8A8} && (k + 1) * PixelSize(f).value <= |pixels|
    ensures k * PixelSize(f).value + PixelSize(f).value <= |pixels|
    ensures LumaPixel(pixels, f, k) == ZeroFillPixel(pixels, f, k * PixelSize(f).value)
  {
  }

  /** On whole three- and four-channel images the two loaders agree. */
  lemma LoadersAgreeOnColour(pixels: seq<Byte>, f: Format, n: nat)
    requires f in {R8G8B8, R8G8B8A8} && |pixels| == n * PixelSize(f).value
    ensures ExpandLuma(pixels, f, n) == ExpandZeroFill(pixels, f)
  {
    var size := PixelSize(f).value;
    LumaShape(pixels, f, n);
    ModUnique(|pixels|, size, n, 0);
    ZeroFillShape(pixels, f);
    var a := ExpandLuma(pixels, f, n).value;
    var b := ExpandZeroFill(pixels, f).value;
    forall k | 0 <= k < n
      ensures a[4 * k..4 * k + 4] == b[4 * k..4 * k + 4]
    {
      SamePixel(pixels, f, k);
    }
    BlocksEqual(a, b, n);
  }

  /** Two sequences of `n` four-byte pixels that agree pixel by pixel are equal. */
  lemma BlocksEqual(a: seq<Byte>, b: seq<Byte>, n: nat)
    requires |a| == |b| == 4 * n
    requires forall k :: 0 <= k < n ==> a[4 * k..4 * k + 4] == b[4 * k..4 * k + 4]
    ensures a == b
  {
    forall j | 0 <= j < |a|
      ensures a[j] == b[j]
    {
      var k := j / 4;
      ModUnique(j, 4, k, j % 4);
      assert a[j] == a[4 * k..4 * k + 4][j % 4];
      assert b[j] == b[4 * k..4 * k + 4][j % 4];
    }
  }

  // ---------------------------------------------------------------------------
  // Asset loader images

  datatype TexGamma = Linear | Srgb

  datatype Image = Image(
    pixels: seq<Byte>, width: nat, height: nat, source: Option<string>, index: nat,
    gamma: TexGamma, format: Format)

  /** `Image::default`: one opaque white-ish pixel of value 1, sRGB, index 0. */
  function DefaultImage(): (r: Image)
    ensures r.pixels == [1, 1, 1, 1] && r.width == 1 && r.height == 1
    ensures r.index == 0 && r.gamma == Srgb && r.source.None? && r.format == R8G8B8A8
    ensures |r.pixels| == 4 * r.width * r.height
  {
    Image([1, 1, 1, 1], 1, 1, None, 0, Srgb, R8G8B8A8)
  }

  /** `update_info`: index 0 is reserved for the default image, so the stored
      index is the glTF index plus one; images used as linear data switch to
      linear gamma, others keep theirs; the source is the URI, if any. */
  function UpdateInfo(img: Image, originalIndex: nat, uri: Option<string>, linear: set<nat>): (r: Image)
    ensures r.index == originalIndex + 1
    ensures originalIndex in linear ==> r.gamma == Linear
    ensures originalIndex !in linear ==> r.gamma == img.gamma
    ensures r.source == uri
    ensures r.pixels == img.pixels && r.width == img.width && r.height == img.height
  {
    img.(index := originalIndex + 1,
         gamma := if originalIndex in linear then Linear else img.gamma,
         source := uri)
  }

  /** `Image::try_from(&gltf::image::Data)`: `width * height` pixels (a `u32`
      product), the rest from the default image. */
  function ImageFromData(pixels: seq<Byte>, width: nat, height: nat, f: Format): (r: Result<Image, ImageError>)
    requires IsU32(width) && IsU32(height)
    ensures r.Success? ==>
      && |r.value.pixels| == 4 * (width * height)
      && r.value.width == width && r.value.height == height && r.value.format == f
      && r.value.index == 0 && r.value.gamma == Srgb
    ensures r.Success? <==>
      width * height <= U32_MAX && PixelSize(f).Some? && width * height * PixelSize(f).value <= |pixels|
  {
    var count :- CheckedMul(width, height).ToResult(Overflow);
    LumaShape(pixels, f, count);
    var out :- ExpandLuma(pixels, f, count);
    Success(DefaultImage().(pixels := out, width := width, height := height, format := f))
  }
}

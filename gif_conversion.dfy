/** The palette that links sprite pixel indices to image colours, and the
    per-pixel conversion between a sprite and a width x height grid of RGBA
    colours. The GIF file itself (encoding, quantizing, decoding) stays out:
    an image is only its grid. Value-level functions first, then the class
    `Converter`, whose constructor builds the palette tables in loops and
    whose methods fill grids and sprites cell by cell. */
module GifConversion {
  import opened Common
  import opened SpriteFormat
  import opened Sprites

  datatype Rgba = Rgba(r: byte, g: byte, b: byte, a: byte)

  /** The key of the colour-to-index dictionary: a colour without alpha. */
  datatype Rgb = Rgb(r: byte, g: byte, b: byte)

  /** A visible pixel whose colour is neither transparent nor a palette grey. */
  datatype ConvertError = NoExactColorMatch

  /** Number of opaque palette entries (indices 0 to 14). */
  const GrayCount: nat := 15

  /** Fully transparent black, the colour of palette index 15. */
  const Clear: Rgba := Rgba(0, 0, 0, 0)

  /** The colour of an out-of-palette pixel value. */
  const OpaqueBlack: Rgba := Rgba(0, 0, 0, 255)

  /** The grey level of palette index `i`, an integer ramp from 0 to 255. */
  function Gray(i: nat): (g: byte)
    requires i < GrayCount
  {
    i * 255 / 14
  }

  /** The ramp is strictly increasing, so the 15 greys are distinct. */
  lemma GrayStrict(i: nat, j: nat)
    requires i < j < GrayCount
    ensures Gray(i) < Gray(j)
  {
  }

  lemma GrayEnds()
    ensures Gray(0) == 0 && Gray(GrayCount - 1) == 255
  {
  }

  /** Palette entry `i`: an opaque grey for 0 to 14, transparent for 15. */
  function PaletteColor(i: nat): (c: Rgba)
    requires i < 16
    ensures i < GrayCount ==> c.a == 255 && c.r == c.g == c.b == Gray(i)
    ensures i == TransparentPixel ==> c == Clear
  {
    if i == TransparentPixel as nat then Clear else Rgba(Gray(i), Gray(i), Gray(i), 255)
  }

  function GrayKey(i: nat): Rgb
    requires i < GrayCount
  {
    Rgb(Gray(i), Gray(i), Gray(i))
  }

  /** The dictionary after the first `n` steps of the palette loop: each step
      maps the grey of index `i` to `i`. */
  function GrayMap(n: nat): map<Rgb, byte>
    requires n <= GrayCount
  {
    if n == 0 then map[] else GrayMap(n - 1)[GrayKey(n - 1) := n - 1]
  }

  /** The colour-to-index dictionary. */
  function ColorToIndex(): map<Rgb, byte> {
    GrayMap(GrayCount)
  }

  /** The dictionary holds exactly the greys of the first `n` indices, and
      maps each back to its index. */
  lemma {:induction false} GrayMapInverts(n: nat)
    requires n <= GrayCount
    ensures forall i :: 0 <= i < n ==> GrayKey(i) in GrayMap(n) && GrayMap(n)[GrayKey(i)] == i
    ensures forall key :: key in GrayMap(n) ==> GrayMap(n)[key] < n && key == GrayKey(GrayMap(n)[key])
  {
    if n > 0 {
      GrayMapInverts(n - 1);
      forall i | 0 <= i < n - 1
        ensures GrayKey(i) != GrayKey(n - 1)
      {
        GrayStrict(i, n - 1);
      }
    }
  }

  /** The palette index of an image colour: 15 for any fully transparent
      colour, the index of an exact grey match whatever its (nonzero) alpha,
      and an error for every other colour. */
  function GetExactColorIndex(color: Rgba): (r: Result<byte, ConvertError>)
  {
    if color.a == 0 then Ok(TransparentPixel)
    else if Rgb(color.r, color.g, color.b) in ColorToIndex() then Ok(ColorToIndex()[Rgb(color.r, color.g, color.b)])
    else Err(NoExactColorMatch)
  }

  /** `GetExactColorIndex` succeeds with `i` exactly when the colour is
      transparent and `i` is 15, or the colour is visible and its RGB is the
      grey of palette index `i`. */
  lemma ExactColorIndexIff(color: Rgba, i: nat)
    ensures GetExactColorIndex(color) == Ok(i) <==>
      (color.a == 0 && i == TransparentPixel as nat) ||
      (color.a != 0 && i < GrayCount && color.r == Gray(i) && color.g == Gray(i) && color.b == Gray(i))
  {
    GrayMapInverts(GrayCount);
    if color.a != 0 && i < GrayCount && color.r == Gray(i) && color.g == Gray(i) && color.b == Gray(i) {
      assert Rgb(color.r, color.g, color.b) == GrayKey(i);
    }
  }

  /** Every palette colour maps back to its own index. */
  lemma PaletteInverse(i: nat)
    requires i < 16
    ensures GetExactColorIndex(PaletteColor(i)) == Ok(i)
  {
    ExactColorIndexIff(PaletteColor(i), i);
  }

  /** Every index `GetExactColorIndex` returns is a 4-bit palette index. */
  lemma ExactColorIndexRange(color: Rgba)
    ensures GetExactColorIndex(color).Ok? ==> GetExactColorIndex(color).value <= 15
  {
    GrayMapInverts(GrayCount);
  }

  /** The colour `ToGif` draws for a sprite pixel value. */
  function IndexColor(p: byte): (c: Rgba)
    ensures p < 16 ==> c == PaletteColor(p)
  {
    if p == TransparentPixel then Clear
    else if p < 16 then PaletteColor(p)
    else OpaqueBlack
  }

  /** Drawing a pixel value and matching the colour again gives the value
      back for a 4-bit index, and index 0 (black) for any larger value. */
  lemma PixelRoundTrip(p: byte)
    ensures GetExactColorIndex(IndexColor(p)) == Ok(if p < 16 then p else 0)
  {
    if p < 16 {
      PaletteInverse(p);
    } else {
      GrayEnds();
      ExactColorIndexIff(OpaqueBlack, 0);
    }
  }

  /** An image as a grid: `rows[y][x]` is the colour at column `x`, row `y`. */
  datatype Image = Image(width: nat, height: nat, rows: seq<seq<Rgba>>)

  predicate WellShaped(img: Image) {
    |img.rows| == img.height && forall y :: 0 <= y < |img.rows| ==> |img.rows[y]| == img.width
  }

  /** The 1x1 transparent image written for an empty sprite. */
  function EmptyImage(): (img: Image)
    ensures WellShaped(img)
  {
    Image(1, 1, [[Clear]])
  }

  /** What `GetPixel` returns for cell `(x, y)` of a sprite in state `v`. */
  function CellOf(v: SpriteValue, x: int, y: int): byte
    requires WellFormed(v)
  {
    if InCell(x, y, v.pitch, v.height) then
      CellIndex(x, y, v.pitch, v.height);
      v.pixels[y * v.pitch + x]
    else 0
  }

  /** The grid `ToGif` draws: the empty image for an empty sprite, otherwise
      `Width` x `Height` colours of the visible cells; the padding column is
      not drawn. */
  function ToImage(v: SpriteValue): (img: Image)
    requires WellFormed(v)
    ensures WellShaped(img)
  {
    if v.isEmpty then EmptyImage()
    else Image(v.width, v.height, seq(v.height, y => seq(v.width, x => IndexColor(CellOf(v, x, y)))))
  }

  /** Some visible pixel of the first `width` columns and `height` rows has
      no palette index. */
  predicate Unmatched(img: Image, width: nat, height: nat)
    requires WellShaped(img) && width <= img.width && height <= img.height
  {
    exists x, y :: 0 <= x < width && 0 <= y < height && GetExactColorIndex(img.rows[y][x]).Err?
  }

  /** The palette index of a colour known to have one. */
  function MatchedIndex(color: Rgba): (p: byte)
    ensures p <= 15
  {
    ExactColorIndexRange(color);
    match GetExactColorIndex(color)
    case Ok(i) => i
    case Err(_) => TransparentPixel
  }

  /** Cell `k` of a row-major buffer of pitch `pitch` lies in column
      `k % pitch` of row `k / pitch`. */
  lemma CellOfIndex(k: nat, pitch: nat, height: nat)
    requires k < pitch * height
    ensures pitch > 0 && k / pitch < height && k == (k / pitch) * pitch + k % pitch
  {
    if k / pitch >= height {
      MulMonotone(height, k / pitch, pitch);
    }
  }

  /** Conversely, column `x` of row `y` is cell `y * pitch + x`. */
  lemma IndexOfCell(x: nat, y: nat, pitch: nat)
    requires x < pitch
    ensures (y * pitch + x) / pitch == y && (y * pitch + x) % pitch == x
  {
    var k := y * pitch + x;
    var q, r := k / pitch, k % pitch;
    assert (q - y) * pitch == x - r;
    if q > y {
      MulMonotone(1, q - y, pitch);
    } else if q < y {
      MulMonotone(1, y - q, pitch);
    }
  }

  /** Cell `k` of the sprite `FromGif` builds: the index of the image colour
      for the first `width` columns, transparent in the padding column. */
  function CellFrom(img: Image, width: nat, height: nat, pitch: nat, k: nat): byte
    requires WellShaped(img) && width <= img.width && height <= img.height
    requires k < pitch * height
  {
    CellOfIndex(k, pitch, height);
    Target(img, width, k % pitch, k / pitch)
  }

  /** The value `FromGif` stores in column `x` of row `y`. */
  function Target(img: Image, width: nat, x: nat, y: nat): byte
    requires WellShaped(img) && width <= img.width && y < img.height
  {
    if x < width then MatchedIndex(img.rows[y][x]) else TransparentPixel
  }

  /** The sprite `FromGif` builds from a grid. A 1x1 grid whose pixel is
      transparent gives the empty sprite. Otherwise the dimensions are cast
      to `ushort` and the pitch is `(ushort)(width + (width & 1))`; any
      visible colour without a palette index is an error. */
  function FromImage(img: Image): (r: Result<SpriteValue, ConvertError>)
    requires WellShaped(img)
    ensures r.Ok? ==> WellFormed(r.value) && Nibbles(r.value.pixels)
  {
    if img.width == 1 && img.height == 1 && img.rows[0][0].a == 0 then Ok(EmptyValue())
    else
      var width := ToU16(img.width);
      var height := ToU16(img.height);
      var pitch := ToU16(width as int + width % 2);
      if Unmatched(img, width, height) then Err(NoExactColorMatch)
      else Ok(SpriteValue(width, height, pitch,
                          seq(pitch * height, k requires 0 <= k < pitch * height => CellFrom(img, width, height, pitch, k)),
                          false))
  }

  /** The 1x1 transparent-pixel case of `FromImage`. */
  predicate IsEmptyImage(img: Image)
    requires WellShaped(img)
  {
    img.width == 1 && img.height == 1 && img.rows[0][0].a == 0
  }

  /** A cell of the sprite `FromImage` builds from a grid other than the
      empty image: the palette index of the image colour in the first
      `width` columns, transparent in the padding column. */
  lemma FromImageCell(img: Image, x: int, y: int)
    requires WellShaped(img) && FromImage(img).Ok? && !IsEmptyImage(img)
    requires InCell(x, y, FromImage(img).value.pitch, FromImage(img).value.height)
    ensures x < FromImage(img).value.width ==>
      x < img.width && y < img.height && CellOf(FromImage(img).value, x, y) == MatchedIndex(img.rows[y][x])
    ensures x >= FromImage(img).value.width ==> CellOf(FromImage(img).value, x, y) == TransparentPixel
  {
    var r := FromImage(img).value;
    IndexOfCell(x, y, r.pitch);
    CellIndex(x, y, r.pitch, r.height);
    assert r.pixels[y * r.pitch + x] == CellFrom(img, r.width, r.height, r.pitch, y * r.pitch + x);
  }

  /** An empty sprite becomes the 1x1 transparent image, which converts
      back to the empty sprite. */
  lemma EmptyRoundTrip(v: SpriteValue)
    requires WellFormed(v) && v.isEmpty
    ensures ToImage(v) == EmptyImage()
    ensures FromImage(ToImage(v)) == Ok(EmptyValue())
  {
  }

  /** A non-empty 1x1 sprite whose pixel is transparent draws the same
      image as an empty sprite, so it comes back as the empty sprite. */
  lemma SingleClearBecomesEmpty(v: SpriteValue)
    requires WellFormed(v) && !v.isEmpty && IsSingle(v.width, v.height)
    requires CellOf(v, 0, 0) == TransparentPixel
    ensures ToImage(v) == EmptyImage()
    ensures FromImage(ToImage(v)) == Ok(EmptyValue())
  {
    var img := ToImage(v);
    assert img.rows[0][0] == IndexColor(CellOf(v, 0, 0));
    assert img.rows[0] == [Clear];
  }

  /** Drawing a non-empty sprite and converting the image back gives a
      sprite of the same width and height whose pitch is the width rounded
      up to even, and restores every visible pixel: a 4-bit index exactly,
      a larger value as 0 (it was drawn opaque black). The padding column
      comes back transparent. The one exception is a 1x1 sprite whose pixel
      is transparent (`SingleClearBecomesEmpty`). A width of 65535 is
      excluded because its pitch wraps to 0. */
  lemma ImageRoundTrip(v: SpriteValue)
    requires WellFormed(v) && !v.isEmpty && v.width < 0xFFFF
    requires !(IsSingle(v.width, v.height) && CellOf(v, 0, 0) == TransparentPixel)
    ensures FromImage(ToImage(v)).Ok?
    ensures var r := FromImage(ToImage(v)).value;
      r.width == v.width && r.height == v.height && r.pitch == v.width + v.width % 2 && !r.isEmpty
    ensures forall x, y :: 0 <= x < v.width && 0 <= y < v.height ==>
      CellOf(FromImage(ToImage(v)).value, x, y) == if CellOf(v, x, y) < 16 then CellOf(v, x, y) else 0
    ensures forall y :: 0 <= y < v.height && v.width % 2 == 1 ==>
      CellOf(FromImage(ToImage(v)).value, v.width, y) == TransparentPixel
  {
    var img := ToImage(v);
    if IsSingle(v.width, v.height) {
      assert img.rows[0][0] == IndexColor(CellOf(v, 0, 0));
    }
    assert !IsEmptyImage(img);
    forall x, y | 0 <= x < v.width && 0 <= y < v.height
      ensures GetExactColorIndex(img.rows[y][x]) == Ok(if CellOf(v, x, y) < 16 then CellOf(v, x, y) else 0)
    {
      PixelRoundTrip(CellOf(v, x, y));
    }
    assert !Unmatched(img, v.width, v.height);
    var r := FromImage(img).value;
    forall x, y | 0 <= x < v.width && 0 <= y < v.height
      ensures CellOf(r, x, y) == if CellOf(v, x, y) < 16 then CellOf(v, x, y) else 0
    {
      FromImageCell(img, x, y);
    }
    forall y | 0 <= y < v.height && v.width % 2 == 1
      ensures CellOf(r, v.width, y) == TransparentPixel
    {
      FromImageCell(img, v.width, y);
    }
  }

  /** The cells past the visible width of `v` are transparent. */
  ghost predicate ClearPadding(v: SpriteValue)
    requires WellFormed(v)
  {
    forall x, y :: v.width <= x && InCell(x, y, v.pitch, v.height) ==> CellOf(v, x, y) == TransparentPixel
  }

  /** Cell `k` of the buffer is what `GetPixel` returns for column
      `k % pitch` of row `k / pitch`. */
  lemma CellAt(v: SpriteValue, k: nat)
    requires WellFormed(v) && k < |v.pixels|
    ensures v.pitch > 0 && InCell(k % v.pitch, k / v.pitch, v.pitch, v.height)
    ensures v.pixels[k] == CellOf(v, k % v.pitch, k / v.pitch)
  {
    CellOfIndex(k, v.pitch, v.height);
    var x, y := k % v.pitch, k / v.pitch;
    assert 0 <= x < v.pitch;
    assert InCell(x, y, v.pitch, v.height);
    assert y * v.pitch + x == k;
  }

  /** Two well-formed states with the same dimensions and the same cells are equal. */
  lemma SameCells(v: SpriteValue, w: SpriteValue)
    requires WellFormed(v) && WellFormed(w)
    requires v.width == w.width && v.height == w.height && v.pitch == w.pitch && v.isEmpty == w.isEmpty
    requires forall x, y :: InCell(x, y, v.pitch, v.height) ==> CellOf(v, x, y) == CellOf(w, x, y)
    ensures v == w
  {
    forall k | 0 <= k < |v.pixels|
      ensures v.pixels[k] == w.pixels[k]
    {
      CellAt(v, k);
      CellAt(w, k);
    }
  }

  /** A sprite in the form `FromGif` produces (pitch the width rounded up
      to even, 4-bit pixels, transparent padding, not empty and not a
      transparent 1x1 sprite) survives `ToGif` and `FromGif` unchanged. */
  lemma ImageRoundTripExact(v: SpriteValue)
    requires WellFormed(v) && !v.isEmpty && v.width < 0xFFFF && v.pitch == v.width + v.width % 2
    requires Nibbles(v.pixels) && ClearPadding(v)
    requires !(IsSingle(v.width, v.height) && CellOf(v, 0, 0) == TransparentPixel)
    ensures FromImage(ToImage(v)) == Ok(v)
  {
    ImageRoundTrip(v);
    var r := FromImage(ToImage(v)).value;
    forall x, y | InCell(x, y, v.pitch, v.height)
      ensures CellOf(v, x, y) == CellOf(r, x, y)
    {
      CellIndex(x, y, v.pitch, v.height);
      if x == v.width {
        assert v.width % 2 == 1;
      }
    }
    SameCells(v, r);
  }

  /** Colours that some palette entry has. */
  ghost predicate IsPaletteColor(c: Rgba) {
    exists i :: 0 <= i < 16 && PaletteColor(i) == c
  }

  /** An image drawn only in palette colours, narrower than 65535 and lower
      than 65536 pixels, survives `FromGif` and `ToGif` unchanged. */
  lemma SpriteRoundTrip(img: Image)
    requires WellShaped(img) && img.width < 0xFFFF && img.height < 0x1_0000
    requires forall x, y :: 0 <= y < img.height && 0 <= x < img.width ==> IsPaletteColor(img.rows[y][x])
    ensures FromImage(img).Ok?
    ensures ToImage(FromImage(img).value) == img
  {
    forall x, y | 0 <= y < img.height && 0 <= x < img.width
      ensures GetExactColorIndex(img.rows[y][x]).Ok? && IndexColor(MatchedIndex(img.rows[y][x])) == img.rows[y][x]
    {
      var i :| 0 <= i < 16 && PaletteColor(i) == img.rows[y][x];
      PaletteInverse(i);
    }
    if IsEmptyImage(img) {
      assert img.rows[0][0] == Clear;
      assert img.rows[0] == [Clear];
    } else {
      assert !Unmatched(img, img.width, img.height);
      var r := FromImage(img).value;
      var out := ToImage(r);
      forall y | 0 <= y < img.height
        ensures out.rows[y] == img.rows[y]
      {
        forall x | 0 <= x < img.width
          ensures out.rows[y][x] == img.rows[y][x]
        {
          FromImageCell(img, x, y);
        }
      }
    }
  }

  /** A sprite state whose dimensions are those `FromImage` computes and
      whose every cell holds its `Target` is the result of `FromImage`. */
  lemma FilledSprite(img: Image, v: SpriteValue)
    requires WellShaped(img) && !IsEmptyImage(img)
    requires WellFormed(v) && !v.isEmpty
    requires v.width == ToU16(img.width) && v.height == ToU16(img.height) && v.pitch == ToU16(v.width + v.width % 2)
    requires !Unmatched(img, v.width, v.height)
    requires forall x, y :: InCell(x, y, v.pitch, v.height) ==> CellOf(v, x, y) == Target(img, v.width, x, y)
    ensures FromImage(img) == Ok(v)
  {
    forall k | 0 <= k < |v.pixels|
      ensures v.pixels[k] == CellFrom(img, v.width, v.height, v.pitch, k)
    {
      CellAt(v, k);
    }
    assert FromImage(img).value.pixels == v.pixels;
  }

  /** The grid `image` holds exactly the colours of `img`; `image[x, y]` is
      column `x` of row `y`. */
  ghost predicate Shows(image: array2<Rgba>, img: Image)
    reads image
  {
    WellShaped(img) && image.Length0 == img.width && image.Length1 == img.height &&
    forall x, y :: 0 <= x < image.Length0 && 0 <= y < image.Length1 ==> image[x, y] == img.rows[y][x]
  }

  /** The colours of `image` as a value. */
  ghost function ImageOf(image: array2<Rgba>): (img: Image)
    reads image
    ensures Shows(image, img)
  {
    Image(image.Length0, image.Length1,
          seq(image.Length1, y requires 0 <= y < image.Length1 reads image =>
            seq(image.Length0, x requires 0 <= x < image.Length0 reads image => image[x, y])))
  }

  /** The palette tables and the two conversions. The constructor is the
      static initialiser that fills the palette array and the
      colour-to-index dictionary. */
  class Converter {
    const PaletteColors: array<Rgba>
    const ColorToIndexMap: map<Rgb, byte>

    ghost predicate Valid()
      reads PaletteColors
    {
      PaletteColors.Length == 16 &&
      (forall i :: 0 <= i < 16 ==> PaletteColors[i] == PaletteColor(i)) &&
      ColorToIndexMap == ColorToIndex()
    }

    /** Entries 0 to 14 get the greys of the ramp and the dictionary maps
        each grey back to its index; entry 15 is transparent. */
    constructor ()
      ensures Valid() && fresh(PaletteColors)
    {
      var colors := new Rgba[16];
      var index: map<Rgb, byte> := map[];
      for i := 0 to GrayCount
        invariant forall j :: 0 <= j < i ==> colors[j] == PaletteColor(j)
        invariant index == GrayMap(i)
      {
        var gray: byte := i * 255 / 14;
        colors[i] := Rgba(gray, gray, gray, 255);
        index := index[Rgb(gray, gray, gray) := i];
      }
      colors[TransparentPixel] := Clear;
      PaletteColors := colors;
      ColorToIndexMap := index;
    }

    /** The grid of a sprite: the empty image for an empty sprite, otherwise
        the colours `ToImage` gives. */
    method ToGif(sprite: Sprite) returns (image: array2<Rgba>)
      requires Valid() && sprite.Valid()
      ensures fresh(image)
      ensures Shows(image, ToImage(sprite.Value()))
    {
      if sprite.IsEmptySprite {
        image := SaveEmptySprite();
        return;
      }
      image := new Rgba[sprite.Width, sprite.Height];
      for y := 0 to sprite.Height
        invariant forall x', y' :: 0 <= x' < image.Length0 && 0 <= y' < y ==>
          image[x', y'] == IndexColor(CellOf(sprite.Value(), x', y'))
      {
        DrawRow(sprite, image, y);
      }
    }

    /** Row `y` of `ToGif`: one colour per visible column, looked up in the
        palette array; no other row changes. */
    method DrawRow(sprite: Sprite, image: array2<Rgba>, y: nat)
      requires Valid() && sprite.Valid()
      requires image.Length0 == sprite.Width && y < image.Length1
      modifies image
      ensures forall x', y' :: 0 <= x' < image.Length0 && 0 <= y' < image.Length1 ==>
        image[x', y'] == if y' == y then IndexColor(CellOf(sprite.Value(), x', y')) else old(image[x', y'])
    {
      for x := 0 to sprite.Width
        invariant forall x', y' :: 0 <= x' < image.Length0 && 0 <= y' < image.Length1 ==>
          image[x', y'] == if y' == y && x' < x then IndexColor(CellOf(sprite.Value(), x', y')) else old(image[x', y'])
      {
        var pixelValue := sprite.GetPixel(x, y);
        if pixelValue == TransparentPixel {
          image[x, y] := Clear;
        } else if pixelValue < PaletteColors.Length {
          image[x, y] := PaletteColors[pixelValue];
        } else {
          image[x, y] := OpaqueBlack;
        }
      }
    }

    /** The image written for an empty sprite: one transparent pixel. */
    static method SaveEmptySprite() returns (image: array2<Rgba>)
      ensures fresh(image) && Shows(image, EmptyImage())
    {
      image := new Rgba[1, 1];
      image[0, 0] := Clear;
    }

    /** The sprite of a grid: exactly `FromImage` of its colours, and an
        error exactly when `FromImage` reports one. */
    method FromGif(image: array2<Rgba>) returns (r: Result<Sprite, ConvertError>)
      requires Valid()
      ensures r.Ok? <==> FromImage(ImageOf(image)).Ok?
      ensures r.Ok? ==> fresh(r.value) && fresh(r.value.pixels) && r.value.Valid()
      ensures r.Ok? ==> r.value.Value() == FromImage(ImageOf(image)).value
    {
      ghost var img := ImageOf(image);
      if image.Length0 == 1 && image.Length1 == 1 && image[0, 0].a == 0 {
        var empty := Sprite.CreateEmpty();
        return Ok(empty);
      }
      var width := ToU16(image.Length0);
      var height := ToU16(image.Length1);
      var pitch := ToU16(width as int + width % 2);
      var sprite := new Sprite(width, height, pitch);
      var ok := FillPixels(image, img, sprite);
      if !ok {
        return Err(NoExactColorMatch);
      }
      FilledSprite(img, sprite.Value());
      return Ok(sprite);
    }

    /** The rows of `FromGif`, top to bottom, on a sprite whose cells are
        all transparent. It stops at the first colour without a palette
        index; otherwise every cell holds its `Target`. */
    method FillPixels(image: array2<Rgba>, ghost img: Image, sprite: Sprite) returns (ok: bool)
      requires Valid() && Shows(image, img) && sprite.Valid()
      requires sprite.Width <= img.width && sprite.Height <= img.height
      requires sprite.Pitch == 0 || sprite.Width <= sprite.Pitch <= sprite.Width + 1
      requires forall k :: 0 <= k < sprite.pixels.Length ==> sprite.pixels[k] == TransparentPixel
      modifies sprite.pixels
      ensures ok <==> !Unmatched(img, sprite.Width, sprite.Height)
      ensures ok ==> forall x, y :: InCell(x, y, sprite.Pitch, sprite.Height) ==>
        CellOf(sprite.Value(), x, y) == Target(img, sprite.Width, x, y)
    {
      for y := 0 to sprite.Height
        invariant forall x, y' :: 0 <= x < sprite.Width && 0 <= y' < y ==> GetExactColorIndex(img.rows[y'][x]).Ok?
        invariant forall x, y' :: InCell(x, y', sprite.Pitch, sprite.Height) ==>
          sprite.GetPixel(x, y') == if y' < y then Target(img, sprite.Width, x, y') else TransparentPixel
      {
        ok := FillRow(image, img, sprite, y);
        if !ok {
          return;
        }
      }
      ok := true;
      forall x, y | InCell(x, y, sprite.Pitch, sprite.Height)
        ensures CellOf(sprite.Value(), x, y) == Target(img, sprite.Width, x, y)
      {
        assert sprite.GetPixel(x, y) == Target(img, sprite.Width, x, y);
      }
    }

    /** Row `y` of `FromGif`: each visible column gets 15 when its colour is
        transparent and otherwise the index `ColorToIndexMap` holds for its
        RGB, and, for an odd width, the padding column is set to 15. It stops
        at the first colour the dictionary does not hold. No other row
        changes. */
    method FillRow(image: array2<Rgba>, ghost img: Image, sprite: Sprite, y: nat) returns (ok: bool)
      requires Valid() && Shows(image, img) && sprite.Valid()
      requires sprite.Width <= img.width && y < sprite.Height <= img.height
      requires sprite.Pitch == 0 || sprite.Width <= sprite.Pitch <= sprite.Width + 1
      modifies sprite.pixels
      ensures ok <==> forall x :: 0 <= x < sprite.Width ==> GetExactColorIndex(img.rows[y][x]).Ok?
      ensures ok ==> forall x', y' :: InCell(x', y', sprite.Pitch, sprite.Height) ==>
        sprite.GetPixel(x', y') == if y' == y then Target(img, sprite.Width, x', y') else old(sprite.GetPixel(x', y'))
    {
      for x := 0 to sprite.Width
        invariant forall x' :: 0 <= x' < x ==> GetExactColorIndex(img.rows[y][x']).Ok?
        invariant forall x', y' :: InCell(x', y', sprite.Pitch, sprite.Height) ==>
          sprite.GetPixel(x', y') == if y' == y && x' < x then Target(img, sprite.Width, x', y') else old(sprite.GetPixel(x', y'))
      {
        var color := image[x, y];
        if color.a == 0 {
          sprite.SetPixel(x, y, TransparentPixel);
        } else {
          var key := Rgb(color.r, color.g, color.b);
          if key !in ColorToIndexMap {
            return false;
          }
          sprite.SetPixel(x, y, ColorToIndexMap[key]);
        }
      }
      if sprite.Width != sprite.Pitch {
        sprite.SetPixel(sprite.Width, y, TransparentPixel);
      }
      ok := true;
    }
  }
}

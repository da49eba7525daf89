/** The monochrome processor: reduces an image to one channel and, when a tint
    colour is set, recolours it by scaling the blue, green and red bytes of every
    Bgr32 pixel but the last by the tint's normalised channels. The two format conversions
    are library work; the model receives their results. */
module Monochrome {

  type byte = b: int | 0 <= b < 256

  datatype PixelFormat = Gray8 | Bgr32 | OtherFormat(bits: nat)

  function BitsPerPixel(f: PixelFormat): nat
  {
    match f
    case Gray8 => 8
    case Bgr32 => 32
    case OtherFormat(bits) => bits
  }

  /** A bitmap's format, size and pixel bytes, row after row */
  datatype Bitmap = Bitmap(format: PixelFormat, width: nat, height: nat, pixels: seq<byte>)

  /** A tint colour: its alpha byte and its normalised red, green and blue
      channels (single-precision floats in the C# code, reals here) */
  datatype Color = Color(a: byte, scR: real, scG: real, scB: real)

  /** No tint channel scales a byte beyond 255 */
  predicate FactorsInRange(c: Color)
  {
    c.scR <= 1.0 && c.scG <= 1.0 && c.scB <= 1.0
  }

  /** The factor applied to byte offset 0, 1 or 2 of a Bgr32 pixel */
  function Factor(c: Color, channel: int): real
    requires 0 <= channel < 3
  {
    if channel == 0 then c.scB else if channel == 1 then c.scG else c.scR
  }

  /** A Bgr32 buffer is well formed for its bitmap: four bytes per pixel */
  predicate IsBgr32(bmp: Bitmap)
  {
    bmp.format == Bgr32 && |bmp.pixels| == bmp.width * 4 * bmp.height
  }

  /** One channel after shading: the byte times the factor, raised to 0 when
      negative, then truncated to a byte */
  function ShadeChannel(b: byte, f: real): (r: byte)
    requires f <= 1.0
    ensures r <= b
    ensures f <= 0.0 ==> r == 0
    ensures f >= 0.0 ==> r as real <= b as real * f < r as real + 1.0
  {
    var v := b as real * f;
    ScaleAtMost(b, f, v);
    var clamped := if v < 0.0 then 0.0 else v;
    clamped.Floor
  }

  /** A byte scaled by a factor of at most 1 does not grow, and keeps the sign
      of the factor */
  lemma ScaleAtMost(b: byte, f: real, v: real)
    requires f <= 1.0 && v == b as real * f
    ensures v <= b as real
    ensures f >= 0.0 ==> v >= 0.0
    ensures f <= 0.0 ==> v <= 0.0
  {
    var x := b as real;
    assert x >= 0.0;
    assert x - x * f == x * (1.0 - f);
    assert 1.0 - f >= 0.0;
  }

  /** Whether the loop over a buffer of n bytes reaches byte i: the colour bytes
      of every pixel whose successor pixel still starts inside the buffer */
  predicate Reached(n: int, i: int)
  {
    i % 4 < 3 && i - i % 4 + 4 < n
  }

  /** The pixel buffer after the shading loop */
  function Shaded(s: seq<byte>, c: Color): (r: seq<byte>)
    requires FactorsInRange(c)
    ensures |r| == |s|
  {
    seq(|s|, i requires 0 <= i < |s| =>
      if Reached(|s|, i) then ShadeChannel(s[i], Factor(c, i % 4)) else s[i])
  }

  /** The buffer once the loop has passed the pixels before offset k */
  function ShadedBelow(s: seq<byte>, c: Color, k: int): (r: seq<byte>)
    requires FactorsInRange(c)
    ensures |r| == |s|
  {
    seq(|s|, i requires 0 <= i < |s| =>
      if i < k && Reached(|s|, i) then ShadeChannel(s[i], Factor(c, i % 4)) else s[i])
  }

  /** One loop iteration: shading bytes k, k+1 and k+2 passes one more pixel */
  lemma ShadeStep(s: seq<byte>, c: Color, k: int)
    requires FactorsInRange(c) && 0 <= k && k % 4 == 0 && k + 4 < |s|
    ensures ShadedBelow(s, c, k)[k := ShadeChannel(s[k], c.scB)]
              [k + 1 := ShadeChannel(s[k + 1], c.scG)]
              [k + 2 := ShadeChannel(s[k + 2], c.scR)] == ShadedBelow(s, c, k + 4)
  {
    var lhs := ShadedBelow(s, c, k)[k := ShadeChannel(s[k], c.scB)]
                 [k + 1 := ShadeChannel(s[k + 1], c.scG)]
                 [k + 2 := ShadeChannel(s[k + 2], c.scR)];
    forall i | 0 <= i < |s| ensures lhs[i] == ShadedBelow(s, c, k + 4)[i] {
      if k <= i < k + 4 {
        assert i % 4 == i - k;
      }
    }
  }

  /** The loop's clamp-then-truncate of a scaled byte is ShadeChannel */
  lemma ClampedFloor(b: byte, f: real, scaled: real, clamped: real)
    requires f <= 1.0 && scaled == b as real * f
    requires clamped == if scaled < 0.0 then 0.0 else scaled
    ensures 0 <= clamped.Floor <= b && clamped.Floor == ShadeChannel(b, f)
  {
    ScaleAtMost(b, f, scaled);
  }

  lemma NextPixel(k: int)
    requires k % 4 == 0
    ensures (k + 4) % 4 == 0
  {
  }

  /** When the loop guard fails, every byte the loop ever reaches is passed */
  lemma ShadeDone(s: seq<byte>, c: Color, k: int)
    requires FactorsInRange(c) && 0 <= k && k % 4 == 0 && k + 4 >= |s|
    ensures ShadedBelow(s, c, k) == Shaded(s, c)
  {
    forall i | 0 <= i < |s| ensures ShadedBelow(s, c, k)[i] == Shaded(s, c)[i] {
      if i >= k {
        assert i - i % 4 >= k;
      }
    }
  }

  /** Converts the already grey image back to Bgr32 (given, as colored), copies
      its pixels out, scales the blue, green and red bytes of every pixel but the
      last in place with a stride-4 loop whose guard stops one pixel short and returns a new bitmap of the result */
  method ColorShade(colored: Bitmap, color: Color) returns (dest: Bitmap)
    requires IsBgr32(colored) && FactorsInRange(color)
    ensures dest == Bitmap(Bgr32, colored.width, colored.height, Shaded(colored.pixels, color))
  {
    var bytesPerPixel := (BitsPerPixel(colored.format) + 7) / 8;
    var stride := colored.width * bytesPerPixel;
    var n := stride * colored.height;
    assert n == |colored.pixels|;
    var pixelBuffer := new byte[n](i requires 0 <= i < n => colored.pixels[i]);
    ghost var s: seq<byte> := colored.pixels;
    assert pixelBuffer[..] == ShadedBelow(s, color, 0);

    var k := 0;
    while k + 4 < pixelBuffer.Length
      invariant 0 <= k && k % 4 == 0
      invariant pixelBuffer[..] == ShadedBelow(s, color, k)
    {
      var blue := pixelBuffer[k] as real * color.scB;
      var green := pixelBuffer[k + 1] as real * color.scG;
      var red := pixelBuffer[k + 2] as real * color.scR;
      ghost var scaled := [blue, green, red];

      if blue < 0.0 { blue := 0.0; }
      if green < 0.0 { green := 0.0; }
      if red < 0.0 { red := 0.0; }

      ClampedFloor(pixelBuffer[k], color.scB, scaled[0], blue);
      ClampedFloor(pixelBuffer[k + 1], color.scG, scaled[1], green);
      ClampedFloor(pixelBuffer[k + 2], color.scR, scaled[2], red);
      ShadeStep(s, color, k);
      NextPixel(k);
      ghost var before: seq<byte> := pixelBuffer[..];
      pixelBuffer[k] := blue.Floor;
      pixelBuffer[k + 1] := green.Floor;
      pixelBuffer[k + 2] := red.Floor;
      assert pixelBuffer[..] == before[k := ShadeChannel(s[k], color.scB)]
                                      [k + 1 := ShadeChannel(s[k + 1], color.scG)]
                                      [k + 2 := ShadeChannel(s[k + 2], color.scR)];
      k := k + 4;
    }
    ShadeDone(s, color, k);
    dest := Bitmap(Bgr32, colored.width, colored.height, pixelBuffer[..]);
  }

  /** The processor's settings (Enabled is read by its callers only) */
  class MonochromeProcessor {
    var enabled: bool
    var color: Color
    var pixelFormat: PixelFormat

    /** Disabled, no tint (a zero alpha), converting to Gray8 */
    constructor ()
      ensures !enabled && color == Color(0, 0.0, 0.0, 0.0) && pixelFormat == Gray8
    {
      enabled := false;
      color := Color(0, 0.0, 0.0, 0.0);
      pixelFormat := Gray8;
    }

    /** Given the image converted to the processor's pixel format (monochrome)
        and that image converted back to Bgr32 (colored): shades when the tint
        colour has a non-zero alpha, and otherwise returns the monochrome image
        unchanged */
    method Process(monochrome: Bitmap, colored: Bitmap) returns (r: Bitmap)
      requires monochrome.format == pixelFormat
      requires color.a > 0 ==>
                 IsBgr32(colored) && colored.width == monochrome.width
                 && colored.height == monochrome.height && FactorsInRange(color)
      ensures color.a == 0 ==> r == monochrome
      ensures color.a > 0 ==>
                r == Bitmap(Bgr32, monochrome.width, monochrome.height, Shaded(colored.pixels, color))
    {
      if color.a > 0 {
        r := ColorShade(colored, color);
      } else {
        r := monochrome;
      }
    }
  }

  // ---------------------------------------------------------------------------
  // Properties of the shading loop

  /** In a buffer of whole pixels the loop reaches exactly the colour bytes of
      every pixel but the last */
  lemma ReachedIff(n: int, i: int)
    requires n % 4 == 0 && 0 <= i < n
    ensures Reached(n, i) <==> i % 4 < 3 && i < n - 4
  {
    var q := i / 4;
    assert i == 4 * q + i % 4;
    assert n == 4 * (n / 4);
  }

  /** The fourth byte of every pixel is never changed */
  lemma PadByteKept(s: seq<byte>, c: Color, i: int)
    requires FactorsInRange(c) && 0 <= i < |s| && i % 4 == 3
    ensures Shaded(s, c)[i] == s[i]
  {
  }

  /** The last pixel of a buffer of whole pixels is left as it was */
  lemma {:induction false} LastPixelKept(s: seq<byte>, c: Color)
    requires FactorsInRange(c) && |s| % 4 == 0 && |s| >= 4
    ensures Shaded(s, c)[|s| - 4..] == s[|s| - 4..]
  {
    forall i | |s| - 4 <= i < |s|
      ensures Shaded(s, c)[i] == s[i]
    {
      ReachedIff(|s|, i);
    }
  }

  /** A byte the loop does reach never grows, and becomes 0 under a negative or
      zero factor: the clamp keeps every result a valid byte */
  lemma ShadedByteBounds(s: seq<byte>, c: Color, i: int)
    requires FactorsInRange(c) && 0 <= i < |s| && Reached(|s|, i)
    ensures 0 <= Shaded(s, c)[i] <= s[i]
    ensures Factor(c, i % 4) <= 0.0 ==> Shaded(s, c)[i] == 0
  {
  }

  function WithFactors(c: Color, f: real): Color
  {
    c.(scR := f, scG := f, scB := f)
  }

  /** A tint of (1, 1, 1) changes nothing */
  lemma {:induction false} UnitTintIsIdentity(s: seq<byte>, c: Color)
    requires c == WithFactors(c, 1.0)
    ensures Shaded(s, c) == s
  {
    forall i | 0 <= i < |s| ensures Shaded(s, c)[i] == s[i] {
      if Reached(|s|, i) {
        UnitFactor(s[i]);
      }
    }
  }

  lemma UnitFactor(b: byte)
    ensures ShadeChannel(b, 1.0) == b
  {
    assert b as real * 1.0 == b as real;
  }

  /** A tint of (0, 0, 0) blackens the colour bytes of every pixel the loop
      reaches and leaves the other bytes alone */
  lemma {:induction false} ZeroTintBlackens(s: seq<byte>, c: Color)
    requires c == WithFactors(c, 0.0)
    ensures forall i :: 0 <= i < |s| ==>
              Shaded(s, c)[i] == if Reached(|s|, i) then 0 else s[i]
  {
    forall i | 0 <= i < |s| && Reached(|s|, i) ensures Shaded(s, c)[i] == 0 {
      assert Factor(c, i % 4) == 0.0;
    }
  }

  /** A shaded byte depends only on its own original value and its own channel's
      factor */
  lemma ChannelLocal(s1: seq<byte>, c1: Color, s2: seq<byte>, c2: Color, i: int)
    requires FactorsInRange(c1) && FactorsInRange(c2)
    requires |s1| == |s2| && 0 <= i < |s1| && s1[i] == s2[i]
    requires i % 4 < 3 ==> Factor(c1, i % 4) == Factor(c2, i % 4)
    ensures Shaded(s1, c1)[i] == Shaded(s2, c2)[i]
  {
  }
}

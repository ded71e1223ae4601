/** Blending three premultiplied colours over a triangle with 8-bit weights. */
module SkiaColours {
  type channel = x: int | 0 <= x < 256
  type word = x: int | 0 <= x < 0x1_0000_0000

  datatype Colour = Colour(a: channel, r: channel, g: channel, b: channel)

  ghost predicate Premultiplied(c: Colour) {
    c.r <= c.a && c.g <= c.a && c.b <= c.a
  }

  function Pack(c: Colour): word {
    ((c.a * 256 + c.r) * 256 + c.g) * 256 + c.b
  }

  function Unpack(w: word): Colour {
    Colour(w / 256 / 256 / 256 % 256, w / 256 / 256 % 256, w / 256 % 256, w % 256)
  }

  lemma ByteSplit(q: nat, r: channel)
    ensures (q * 256 + r) / 256 == q && (q * 256 + r) % 256 == r
  {
  }

  lemma UnpackPack(c: Colour)
    ensures Unpack(Pack(c)) == c
  {
    ByteSplit((c.a * 256 + c.r) * 256 + c.g, c.b);
    ByteSplit(c.a * 256 + c.r, c.g);
    ByteSplit(c.a, c.r);
  }

  // ---------------------------------------------------------------- weights

  /** A coordinate as a weight from 1 to 256: SkScalarToFixed, shifted down, clamped, and
      moved from 0..255 to 1..256. */
  function ScalarTo256(v: real): (s: int)
    ensures 1 <= s <= 256
    ensures v <= 0.0 ==> s == 1
    ensures v >= 1.0 ==> s == 256
    ensures 0.0 <= v < 1.0 ==> (s - 1) as real <= v * 256.0 < s as real
  {
    var scale := (v * 256.0).Floor;
    (if scale < 0 then 0 else if scale > 255 then 255 else scale) + 1
  }

  datatype Weights = Weights(w0: int, w1: int, w2: int)

  /** Two coordinates give the weights of the second and third colour; the first has the rest,
      and when nothing is left the smaller of the two gives way. */
  function WeightsAt(x: real, y: real): (w: Weights)
    ensures w.w0 >= 0 && w.w1 >= 0 && w.w2 >= 0 && w.w0 + w.w1 + w.w2 == 256
    ensures var s1, s2 := ScalarTo256(x), ScalarTo256(y);
            && (s1 + s2 <= 256 ==> w.w1 == s1 && w.w2 == s2)
            && (s1 + s2 > 256 ==> w.w0 == 0 && (if s1 > s2 then w.w1 == s1 else w.w2 == s2))
  {
    var scale1, scale2 := ScalarTo256(x), ScalarTo256(y);
    var scale0 := 256 - scale1 - scale2;
    if scale0 >= 0 then Weights(scale0, scale1, scale2)
    else if scale1 > scale2 then Weights(0, scale1, 256 - scale1)
    else Weights(0, 256 - scale2, scale2)
  }

  // ---------------------------------------------------------------- scaling a packed colour

  /** The bits of 0x00FF00FF. */
  function MaskLow(w: nat): nat {
    w / 256 / 256 % 256 * 0x1_0000 + w % 256
  }

  /** The bits of 0xFF00FF00, of a 32-bit word. */
  function MaskHigh(w: nat): nat {
    w / 256 / 256 / 256 % 256 * 0x100_0000 + w / 256 % 256 * 256
  }

  /** SkAlphaMulQ: both halves of the word are multiplied at once, two channels in each. */
  function AlphaMulQ(c: word, scale: nat): nat
    requires scale <= 256
  {
    MaskLow(MaskLow(c) * scale / 256) + MaskHigh(MaskLow(c / 256) * scale)
  }

  function ScaleChannel(x: channel, scale: nat): (r: channel)
    requires scale <= 256
    ensures r <= x
  {
    ScaledAtMost(x, scale);
    x * scale / 256
  }

  lemma ScaledAtMost(x: channel, scale: nat)
    requires scale <= 256
    ensures 0 <= x * scale <= x * 256 && 0 <= x * scale / 256 <= x
  {
    MulMonotone(scale, 256, x);
  }

  lemma MulMonotone(a: nat, b: nat, x: nat)
    requires a <= b
    ensures a * x <= b * x && x * a <= x * b
  {
    assert b * x == a * x + (b - a) * x;
  }

  function ScaleColour(c: Colour, scale: nat): Colour
    requires scale <= 256
  {
    Colour(ScaleChannel(c.a, scale), ScaleChannel(c.r, scale), ScaleChannel(c.g, scale), ScaleChannel(c.b, scale))
  }

  /** Two products in one word, each below 2^16, do not disturb each other. */
  lemma LanesAreSeparate(h: nat, l: nat)
    requires h <= 65280 && l <= 65280
    ensures var p := h * 0x1_0000 + l;
            && MaskLow(p / 256) == h / 256 * 0x1_0000 + l / 256
            && MaskHigh(p) == h / 256 * 0x100_0000 + l / 256 * 256
  {
    var p := h * 0x1_0000 + l;
    assert p / 256 == h * 256 + l / 256;
    ByteSplit(h, l / 256);
    assert h / 256 < 256;
  }

  lemma Halves(c: Colour)
    ensures MaskLow(Pack(c)) == c.r * 0x1_0000 + c.b
    ensures MaskLow(Pack(c) / 256) == c.a * 0x1_0000 + c.g
  {
    ByteSplit((c.a * 256 + c.r) * 256 + c.g, c.b);
    ByteSplit(c.a * 256 + c.r, c.g);
    ByteSplit(c.a, c.r);
  }

  lemma Product(hi: channel, lo: channel, scale: nat)
    requires scale <= 256
    ensures (hi * 0x1_0000 + lo) * scale == hi * scale * 0x1_0000 + lo * scale
    ensures 0 <= hi * scale <= 65280 && 0 <= lo * scale <= 65280
  {
    MulMonotone(scale, 256, hi);
    MulMonotone(scale, 256, lo);
  }

  /** Two channels in one half word, scaled together. */
  lemma ScaledHalf(half: nat, hi: channel, lo: channel, scale: nat)
    requires scale <= 256 && half == hi * 0x1_0000 + lo
    ensures MaskLow(half * scale / 256) == ScaleChannel(hi, scale) * 0x1_0000 + ScaleChannel(lo, scale)
    ensures MaskHigh(half * scale) == ScaleChannel(hi, scale) * 0x100_0000 + ScaleChannel(lo, scale) * 256
  {
    Product(hi, lo, scale);
    LanesAreSeparate(hi * scale, lo * scale);
  }

  /** Scaling the packed word is scaling every channel by itself. */
  lemma AlphaMulQIsPerChannel(c: Colour, scale: nat)
    requires scale <= 256
    ensures AlphaMulQ(Pack(c), scale) == Pack(ScaleColour(c, scale))
  {
    Halves(c);
    ScaledHalf(MaskLow(Pack(c)), c.r, c.b, scale);
    ScaledHalf(MaskLow(Pack(c) / 256), c.a, c.g, scale);
    PackExpanded(ScaleColour(c, scale));
  }

  lemma PackExpanded(c: Colour)
    ensures Pack(c) == c.a * 0x100_0000 + c.r * 0x1_0000 + c.g * 256 + c.b
  {
  }

  // ---------------------------------------------------------------- the sum of three

  predicate NoChannelOverflows(x: Colour, y: Colour, z: Colour) {
    x.a + y.a + z.a < 256 && x.r + y.r + z.r < 256 && x.g + y.g + z.g < 256 && x.b + y.b + z.b < 256
  }

  function AddColours(x: Colour, y: Colour, z: Colour): Colour
    requires NoChannelOverflows(x, y, z)
  {
    Colour(x.a + y.a + z.a, x.r + y.r + z.r, x.g + y.g + z.g, x.b + y.b + z.b)
  }

  ghost predicate SumTo256(w: Weights) {
    w.w0 >= 0 && w.w1 >= 0 && w.w2 >= 0 && w.w0 + w.w1 + w.w2 == 256
  }

  /** Three channels scaled by weights that sum to 256 never leave a channel's range. */
  lemma WeightedSumFits(x: channel, y: channel, z: channel, w: Weights)
    requires SumTo256(w)
    ensures ScaleChannel(x, w.w0) + ScaleChannel(y, w.w1) + ScaleChannel(z, w.w2) < 256
  {
    MulMonotone(x, 255, w.w0);
    MulMonotone(y, 255, w.w1);
    MulMonotone(z, 255, w.w2);
    assert x * w.w0 + y * w.w1 + z * w.w2 <= 255 * 256;
  }

  /** Scaling keeps the order of channels. */
  lemma ScaleMonotone(x: channel, y: channel, scale: nat)
    requires x <= y && scale <= 256
    ensures ScaleChannel(x, scale) <= ScaleChannel(y, scale)
  {
    MulMonotone(x, y, scale);
  }

  lemma ScaledPremultiplied(c: Colour, scale: nat)
    requires Premultiplied(c) && scale <= 256
    ensures Premultiplied(ScaleColour(c, scale))
  {
    ScaleMonotone(c.r, c.a, scale);
    ScaleMonotone(c.g, c.a, scale);
    ScaleMonotone(c.b, c.a, scale);
  }

  lemma PackedSum(x: Colour, y: Colour, z: Colour)
    requires NoChannelOverflows(x, y, z)
    ensures Pack(x) + Pack(y) + Pack(z) == Pack(AddColours(x, y, z))
  {
  }

  lemma WeightsFit(c0: Colour, c1: Colour, c2: Colour, w: Weights)
    requires SumTo256(w)
    ensures NoChannelOverflows(ScaleColour(c0, w.w0), ScaleColour(c1, w.w1), ScaleColour(c2, w.w2))
  {
    WeightedSumFits(c0.a, c1.a, c2.a, w);
    WeightedSumFits(c0.r, c1.r, c2.r, w);
    WeightedSumFits(c0.g, c1.g, c2.g, w);
    WeightedSumFits(c0.b, c1.b, c2.b, w);
  }

  /** The blend of three colours, channel by channel. */
  function Blend(c0: Colour, c1: Colour, c2: Colour, w: Weights): Colour
    requires SumTo256(w)
  {
    WeightsFit(c0, c1, c2, w);
    AddColours(ScaleColour(c0, w.w0), ScaleColour(c1, w.w1), ScaleColour(c2, w.w2))
  }

  /** The sum of the three packed words carries nothing from one channel into the next: it is the
      packed blend. */
  lemma BlendCarriesNothing(c0: Colour, c1: Colour, c2: Colour, w: Weights)
    requires SumTo256(w)
    ensures AlphaMulQ(Pack(c0), w.w0) + AlphaMulQ(Pack(c1), w.w1) + AlphaMulQ(Pack(c2), w.w2) == Pack(Blend(c0, c1, c2, w))
  {
    AlphaMulQIsPerChannel(c0, w.w0);
    AlphaMulQIsPerChannel(c1, w.w1);
    AlphaMulQIsPerChannel(c2, w.w2);
    WeightsFit(c0, c1, c2, w);
    PackedSum(ScaleColour(c0, w.w0), ScaleColour(c1, w.w1), ScaleColour(c2, w.w2));
  }

  /** A blend of premultiplied colours is premultiplied. */
  lemma BlendPremultiplied(c0: Colour, c1: Colour, c2: Colour, w: Weights)
    requires SumTo256(w) && Premultiplied(c0) && Premultiplied(c1) && Premultiplied(c2)
    ensures Premultiplied(Blend(c0, c1, c2, w))
  {
    ScaledPremultiplied(c0, w.w0);
    ScaledPremultiplied(c1, w.w1);
    ScaledPremultiplied(c2, w.w2);
  }

  /** The pixel at unit coordinates s: three scaled words, added as they are. */
  function Pixel(c0: Colour, c1: Colour, c2: Colour, s: (real, real)): word {
    var w := WeightsAt(s.0, s.1);
    BlendCarriesNothing(c0, c1, c2, w);
    AlphaMulQ(Pack(c0), w.w0) + AlphaMulQ(Pack(c1), w.w1) + AlphaMulQ(Pack(c2), w.w2)
  }

  /** A pixel is the packed blend of the three colours. */
  lemma PixelIsBlend(c0: Colour, c1: Colour, c2: Colour, s: (real, real))
    ensures Pixel(c0, c1, c2, s) == Pack(Blend(c0, c1, c2, WeightsAt(s.0, s.1)))
  {
    BlendCarriesNothing(c0, c1, c2, WeightsAt(s.0, s.1));
  }

  /** Read channel by channel, the packed blend of premultiplied colours is premultiplied. */
  lemma BlendReadsBack(c0: Colour, c1: Colour, c2: Colour, w: Weights)
    requires SumTo256(w)
    ensures Unpack(Pack(Blend(c0, c1, c2, w))) == Blend(c0, c1, c2, w)
    ensures Premultiplied(c0) && Premultiplied(c1) && Premultiplied(c2) ==>
              Premultiplied(Unpack(Pack(Blend(c0, c1, c2, w))))
  {
    UnpackPack(Blend(c0, c1, c2, w));
    if Premultiplied(c0) && Premultiplied(c1) && Premultiplied(c2) {
      BlendPremultiplied(c0, c1, c2, w);
    }
  }

  /** One span of pixels, filled in place; shade gives the pixel at unit coordinates, and unit maps
      a device position to them. */
  method ShadeSpan(shade: ((real, real)) -> word, unit: (int, int) -> (real, real), x: int, y: int,
                   dst: array<word>, count: nat)
    requires count <= dst.Length
    modifies dst
    ensures forall i :: 0 <= i < count ==> dst[i] == shade(unit(x + i, y))
    ensures forall i :: count <= i < dst.Length ==> dst[i] == old(dst[i])
  {
    var at := x;
    for i := 0 to count
      invariant at == x + i
      invariant forall j :: 0 <= j < i ==> dst[j] == shade(unit(x + j, y))
      invariant forall j :: count <= j < dst.Length ==> dst[j] == old(dst[j])
    {
      var src := unit(at, y);
      at := at + 1;
      dst[i] := shade(src);
    }
  }

  /** A channel is scaled exactly, up to the fraction that is dropped. */
  lemma ScaledExactly(x: channel, scale: nat)
    requires scale <= 256
    ensures 256 * ScaleChannel(x, scale) <= x * scale < 256 * ScaleChannel(x, scale) + 256
  {
    DivBounds(x * scale);
  }

  lemma DivBounds(n: nat)
    ensures 256 * (n / 256) <= n < 256 * (n / 256) + 256
  {
  }

  /** Where one colour has all the weight, the blend is that colour. */
  lemma CornersKeepColours(c0: Colour, c1: Colour, c2: Colour)
    ensures Blend(c0, c1, c2, Weights(256, 0, 0)) == c0
    ensures Blend(c0, c1, c2, Weights(0, 256, 0)) == c1
    ensures Blend(c0, c1, c2, Weights(0, 0, 256)) == c2
  {
    Whole(c0);
    Whole(c1);
    Whole(c2);
  }

  lemma Whole(c: Colour)
    ensures ScaleColour(c, 256) == c && ScaleColour(c, 0) == Colour(0, 0, 0, 0)
  {
  }

  lemma PixelPremultiplied(c0: Colour, c1: Colour, c2: Colour, s: (real, real))
    requires Premultiplied(c0) && Premultiplied(c1) && Premultiplied(c2)
    ensures Premultiplied(Unpack(Pixel(c0, c1, c2, s)))
  {
    PixelIsBlend(c0, c1, c2, s);
    BlendReadsBack(c0, c1, c2, WeightsAt(s.0, s.1));
  }

  /** The span of a triangle: every pixel is the one at its own coordinates, and premultiplied when
      the colours are. */
  method ShadeTriangle(c0: Colour, c1: Colour, c2: Colour, unit: (int, int) -> (real, real), x: int, y: int,
                       dst: array<word>, count: nat)
    requires count <= dst.Length
    modifies dst
    ensures forall i :: 0 <= i < count ==> dst[i] == Pixel(c0, c1, c2, unit(x + i, y))
    ensures Premultiplied(c0) && Premultiplied(c1) && Premultiplied(c2) ==>
              forall i :: 0 <= i < count ==> Premultiplied(Unpack(dst[i]))
    ensures forall i :: count <= i < dst.Length ==> dst[i] == old(dst[i])
  {
    ShadeSpan(s => Pixel(c0, c1, c2, s), unit, x, y, dst, count);
    if Premultiplied(c0) && Premultiplied(c1) && Premultiplied(c2) {
      forall i | 0 <= i < count ensures Premultiplied(Unpack(dst[i])) {
        PixelPremultiplied(c0, c1, c2, unit(x + i, y));
      }
    }
  }
}

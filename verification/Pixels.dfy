/** Colours as channels and as 32-bit pixels, and the blending of two pixels. */
module Pixels {

  type Byte = n: nat | n < 256

  datatype Color = Color(red: Byte, green: Byte, blue: Byte, alpha: Byte)

  /** Which byte of a pixel holds each channel; -1 for a surface without alpha. */
  datatype Channels = Channels(ir: nat, ig: nat, ib: nat, ia: int) {

    /** Four different bytes, or three without alpha. */
    predicate Valid() {
      && ir < 4 && ig < 4 && ib < 4 && ir != ig && ir != ib && ig != ib
      && -1 <= ia < 4 && ia != ir && ia != ig && ia != ib
    }
  }

  /** The value of a byte shifted left by `8 * k` bits. */
  function Shifted(b: Byte, k: int): nat {
    if k == 0 then b else if k == 1 then 0x100 * b else if k == 2 then 0x1_0000 * b
    else if k == 3 then 0x100_0000 * b else 0
  }

  function MapRgba(ch: Channels, c: Color): nat {
    Shifted(c.red, ch.ir) + Shifted(c.green, ch.ig) + Shifted(c.blue, ch.ib)
    + if ch.ia == -1 then 0 else Shifted(c.alpha, ch.ia)
  }

  /** Byte `k` of a pixel. */
  function Extract(p: nat, k: int): Byte {
    if k == 0 then p % 256 else if k == 1 then (p / 0x100) % 256 else if k == 2 then (p / 0x1_0000) % 256
    else if k == 3 then (p / 0x100_0000) % 256 else 0
  }

  function Decode(ch: Channels, p: nat): Color {
    Color(Extract(p, ch.ir), Extract(p, ch.ig), Extract(p, ch.ib), Extract(p, ch.ia))
  }

  lemma ExtractBytes(a: Byte, b: Byte, c: Byte, d: Byte)
    ensures var p := a + 0x100 * b + 0x1_0000 * c + 0x100_0000 * d;
            Extract(p, 0) == a && Extract(p, 1) == b && Extract(p, 2) == c && Extract(p, 3) == d && p < 0x1_0000_0000
  {
    var p := a + 0x100 * b + 0x1_0000 * c + 0x100_0000 * d;
    assert p / 0x100 == b + 0x100 * c + 0x1_0000 * d;
    assert p / 0x1_0000 == c + 0x100 * d;
    assert p / 0x100_0000 == d;
  }

  /** The byte that a mapped colour has at place `k`. */
  function ByteAt(ch: Channels, c: Color, k: int): Byte {
    if k == ch.ir then c.red else if k == ch.ig then c.green else if k == ch.ib then c.blue
    else if k == ch.ia then c.alpha else 0
  }

  lemma MapIsBytes(ch: Channels, c: Color)
    requires ch.Valid()
    ensures MapRgba(ch, c) == ByteAt(ch, c, 0) + 0x100 * ByteAt(ch, c, 1)
                              + 0x1_0000 * ByteAt(ch, c, 2) + 0x100_0000 * ByteAt(ch, c, 3)
  {
  }

  /** Decoding undoes mapping, up to an alpha the surface does not keep, within 32 bits. */
  lemma DecodeUndoesMap(ch: Channels, c: Color)
    requires ch.Valid()
    ensures MapRgba(ch, c) < 0x1_0000_0000
    ensures Decode(ch, MapRgba(ch, c)) == if ch.ia == -1 then c.(alpha := 0) else c
  {
    MapIsBytes(ch, c);
    ExtractBytes(ByteAt(ch, c, 0), ByteAt(ch, c, 1), ByteAt(ch, c, 2), ByteAt(ch, c, 3));
  }

  // ----- blending -----

  /** The mean of a source and a destination channel, weighted by alpha / 256 and truncated. */
  function Blend(s: Byte, d: Byte, alpha: Byte): (r: Byte)
  {
    var weight := alpha as real / 256.0;
    BlendIsExact(s, d, alpha);
    (s as real * weight + d as real * (1.0 - weight)).Floor
  }

  function BlendedInt(s: Byte, d: Byte, alpha: Byte): int {
    (s * alpha + d * (256 - alpha)) / 256
  }

  /** The truncated real mean is an integer quotient, and a byte. */
  lemma BlendIsExact(s: Byte, d: Byte, alpha: Byte)
    ensures var weight := alpha as real / 256.0;
            (s as real * weight + d as real * (1.0 - weight)).Floor == BlendedInt(s, d, alpha)
    ensures 0 <= BlendedInt(s, d, alpha) < 256
  {
    MeanIsQuotient(s, d, alpha);
    FloorOfQuotient(s * alpha + d * (256 - alpha));
    WeightedBound(s, d, alpha);
  }

  lemma MeanIsQuotient(s: nat, d: nat, alpha: Byte)
    ensures s * alpha + d * (256 - alpha) >= 0
    ensures var weight := alpha as real / 256.0;
            s as real * weight + d as real * (1.0 - weight) == (s * alpha + d * (256 - alpha)) as real / 256.0
  {
    var b := 256 - alpha;
    ProductMonotone(0, s, alpha);
    ProductMonotone(0, d, b);
    RealMean(s as real, d as real, alpha as real);
    RealProduct(s, alpha);
    RealProduct(d, b);
    assert b as real == 256.0 - alpha as real;
    SumAsReal(s * alpha, d * b);
  }

  lemma SumAsReal(p: nat, q: nat)
    ensures (p + q) as real == p as real + q as real
  {
  }

  lemma RealMean(s: real, d: real, x: real)
    ensures s * (x / 256.0) + d * (1.0 - x / 256.0) == (s * x + d * (256.0 - x)) / 256.0
  {
  }

  lemma {:induction false} RealProduct(a: nat, b: nat)
    ensures (a * b) as real == a as real * b as real
  {
  }

  lemma FloorOfQuotient(n: nat)
    ensures (n as real / 256.0).Floor == n / 256
  {
    var q, r := n / 256, n % 256;
    assert n == 256 * q + r;
    assert n as real / 256.0 == q as real + r as real / 256.0;
  }

  lemma {:induction false} ProductMonotone(a: int, b: int, c: nat)
    requires a <= b
    ensures a * c <= b * c
  {
    if c > 0 {
      ProductMonotone(a, b, c - 1);
      assert a * c == a * (c - 1) + a && b * c == b * (c - 1) + b;
    }
  }

  lemma WeightedBound(s: Byte, d: Byte, alpha: Byte)
    ensures 0 <= s * alpha + d * (256 - alpha) <= 255 * 256
  {
    ProductMonotone(s, 255, alpha);
    ProductMonotone(d, 255, 256 - alpha);
    ProductMonotone(0, s, alpha);
    ProductMonotone(0, d, 256 - alpha);
  }

  /** The weighted sum, seen from either end of the gap between source and destination. */
  lemma GapForm(s: int, d: int, alpha: int)
    ensures s * alpha + d * (256 - alpha) == 256 * d + (s - d) * alpha
    ensures s * alpha + d * (256 - alpha) == 256 * s + (d - s) * (256 - alpha)
  {
  }

  /** A blend moves a channel towards the source and never past it. */
  lemma BlendApproaches(s: Byte, d: Byte, alpha: Byte)
    ensures d <= s ==> d <= Blend(s, d, alpha) <= s
    ensures d >= s ==> s <= Blend(s, d, alpha) <= d
    ensures alpha == 255 ==> s - 1 <= Blend(s, d, alpha) <= s
  {
    hide Blend;
    BlendIs(s, d, alpha);
    GapForm(s, d, alpha);
    if d <= s {
      ProductMonotone(0, s - d, alpha);
      ProductMonotone(0, s - d, 256 - alpha);
      GapForm(s, s, alpha);
      assert (d - s) * (256 - alpha) == -((s - d) * (256 - alpha));
    } else {
      ProductMonotone(0, d - s, 256 - alpha);
      ProductMonotone(0, d - s, alpha);
      assert (s - d) * alpha == -((d - s) * alpha);
    }
  }

  lemma BlendIs(s: Byte, d: Byte, alpha: Byte)
    ensures Blend(s, d, alpha) == (s * alpha + d * (256 - alpha)) / 256
  {
    BlendIsExact(s, d, alpha);
  }

  /** The channel after `k` blends of the same source. */
  function Blends(s: Byte, d: Byte, alpha: Byte, k: nat): Byte {
    if k == 0 then d else Blend(s, Blends(s, d, alpha, k - 1), alpha)
  }

  /** Over any number of blends the channel moves one way and stays between its ends. */
  lemma {:induction false} BlendsApproach(s: Byte, d: Byte, alpha: Byte, j: nat, k: nat)
    requires j <= k
    ensures d <= s ==> d <= Blends(s, d, alpha, j) <= Blends(s, d, alpha, k) <= s
    ensures d >= s ==> s <= Blends(s, d, alpha, k) <= Blends(s, d, alpha, j) <= d
  {
    if k > 0 {
      if j < k {
        BlendsApproach(s, d, alpha, j, k - 1);
      } else {
        BlendsApproach(s, d, alpha, k - 1, k - 1);
      }
      BlendApproaches(s, Blends(s, d, alpha, k - 1), alpha);
    }
  }

  /** Truncation stops a rising channel early: a blend changes nothing exactly when the channel
      is below the source by less than one whole step, or not above it by any. */
  lemma BlendStops(s: Byte, d: Byte, alpha: Byte)
    ensures Blend(s, d, alpha) == d <==> if d <= s then (s - d) * alpha < 256 else alpha == 0
  {
    hide Blend;
    BlendIs(s, d, alpha);
    GapForm(s, d, alpha);
    if d <= s {
      ProductMonotone(0, s - d, alpha);
    } else {
      assert (s - d) * alpha == -((d - s) * alpha);
      ProductMonotone(1, d - s, alpha);
    }
  }

  /** The pixel a copy leaves: the source colour, or its blend with the destination, opaque. */
  function CopiedPixel(sch: Channels, dch: Channels, src: nat, dst: nat, alpha: bool): nat {
    var s := Decode(sch, src);
    if alpha then
      var d := Decode(dch, dst);
      MapRgba(dch, Color(Blend(s.red, d.red, s.alpha), Blend(s.green, d.green, s.alpha),
                         Blend(s.blue, d.blue, s.alpha), 255))
    else MapRgba(dch, s)
  }

  /** What a copy of the pixel `src` over the pixel `dst` is to leave. With alpha, each channel is the mean of
      the two, weighted by the alpha of the source out of 256, and the pixel becomes opaque; without, it
      is the source colour. A surface without alpha keeps none. */
  ghost predicate Mixed(sch: Channels, dch: Channels, src: nat, dst: nat, alpha: bool, out: nat) {
    var s, d, r := Decode(sch, src), Decode(dch, dst), Decode(dch, out);
    && out == MapRgba(dch, r)
    && r.red == (if alpha then (s.red * s.alpha + d.red * (256 - s.alpha)) / 256 else s.red)
    && r.green == (if alpha then (s.green * s.alpha + d.green * (256 - s.alpha)) / 256 else s.green)
    && r.blue == (if alpha then (s.blue * s.alpha + d.blue * (256 - s.alpha)) / 256 else s.blue)
    && r.alpha == if dch.ia == -1 then 0 else if alpha then 255 else s.alpha
  }

  lemma CopiedIsMixed(sch: Channels, dch: Channels, src: nat, dst: nat, alpha: bool)
    requires sch.Valid() && dch.Valid()
    ensures Mixed(sch, dch, src, dst, alpha, CopiedPixel(sch, dch, src, dst, alpha))
  {
    hide Decode, MapRgba, Blend;
    var s, d := Decode(sch, src), Decode(dch, dst);
    BlendIs(s.red, d.red, s.alpha);
    BlendIs(s.green, d.green, s.alpha);
    BlendIs(s.blue, d.blue, s.alpha);
    var c := if alpha then Color(Blend(s.red, d.red, s.alpha), Blend(s.green, d.green, s.alpha), Blend(s.blue, d.blue, s.alpha), 255)
             else s;
    DecodeUndoesMap(dch, c);
    WithoutAlpha(dch, c);
  }

  lemma CopiesAreMixed(sch: Channels, dch: Channels, alpha: bool)
    requires sch.Valid() && dch.Valid()
    ensures forall src, dst {:trigger CopiedPixel(sch, dch, src, dst, alpha)} ::
              Mixed(sch, dch, src, dst, alpha, CopiedPixel(sch, dch, src, dst, alpha))
  {
    forall src, dst
      ensures Mixed(sch, dch, src, dst, alpha, CopiedPixel(sch, dch, src, dst, alpha))
    {
      CopiedIsMixed(sch, dch, src, dst, alpha);
    }
  }

  lemma WithoutAlpha(ch: Channels, c: Color)
    ensures ch.ia == -1 ==> MapRgba(ch, c.(alpha := 0)) == MapRgba(ch, c)
  {
  }

  /** A transparent source leaves the colour that was there. */
  lemma TransparentKeeps(sch: Channels, dch: Channels, src: nat, dst: nat, out: nat)
    requires Mixed(sch, dch, src, dst, true, out) && Decode(sch, src).alpha == 0
    ensures var d, r := Decode(dch, dst), Decode(dch, out); r.red == d.red && r.green == d.green && r.blue == d.blue
  {
    hide Decode, MapRgba;
  }
}

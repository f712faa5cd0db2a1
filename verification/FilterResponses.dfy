/**
 * What the shipped filters make of a single bright sample in a dark picture: the tables as they act on
 * pictures, with the names, divisors and biases that go with them.
 */
module FilterResponses {
  import opened Pixels
  import opened Kernels
  import opened Convolution

  /** How far the bright sample is below and to the right of the pixel looked at. */
  datatype Offset = Offset(down: int, right: int) {
    predicate Within(radius: int) {
      -radius <= down <= radius && -radius <= right <= radius
    }
  }

  function OffsetOf(y: int, x: int, r: int, s: int): Offset {
    Offset(r - y, s - x)
  }

  /** The nearest integer to a quotient, halves away from zero. */
  function Nearest(n: nat, d: nat): nat
    requires 0 < d
  {
    (2 * n + d) / (2 * d)
  }

  /** "mb" smears the sample along the main diagonal, a ninth of it to four pixels on either side. */
  lemma MotionBlurResponse(p: Picture, y: int, x: int, c: Channel, r: nat, s: nat, v: Byte)
    requires OneBright(p, c, r, s, v)
    ensures FilterByName("mb").Some? && FilterByName("mb").value.Valid()
    ensures var o := OffsetOf(y, x, r, s);
            ConvChannel(p, FilterByName("mb").value, y, x, c) == if o.Within(4) && o.down == o.right then Nearest(v, 9) else 0
  {
    ShippedKernels("mb");
    BrightResponse(p, FilterByName("mb").value, y, x, c, r, s, v);
    if OffsetOf(y, x, r, s).Within(4) {
      MotionBlurTable(r - y + 4, s - x + 4);
    }
  }

  /** "bb" spreads a thirteenth of it over the diamond of radius two. */
  lemma BlurResponse(p: Picture, y: int, x: int, c: Channel, r: nat, s: nat, v: Byte)
    requires OneBright(p, c, r, s, v)
    ensures FilterByName("bb").Some? && FilterByName("bb").value.Valid()
    ensures var down, right := if r < y then y - r else r - y, if s < x then x - s else s - x;
            ConvChannel(p, FilterByName("bb").value, y, x, c) == if down + right <= 2 then Nearest(v, 13) else 0
  {
    ShippedKernels("bb");
    BrightResponse(p, FilterByName("bb").value, y, x, c, r, s, v);
    if OffsetOf(y, x, r, s).Within(2) {
      BlurTable(r - y + 2, s - x + 2);
    }
  }

  /** "gb" spreads it by binomial weights. */
  lemma GausBlurResponse(p: Picture, y: int, x: int, c: Channel, r: nat, s: nat, v: Byte)
    requires OneBright(p, c, r, s, v)
    ensures FilterByName("gb").Some? && FilterByName("gb").value.Valid()
    ensures var o := OffsetOf(y, x, r, s);
            ConvChannel(p, FilterByName("gb").value, y, x, c)
            == if o.Within(2) then Nearest(v * (Binomial(o.down + 2) * Binomial(o.right + 2)), 256) else 0
  {
    ShippedKernels("gb");
    BrightResponse(p, FilterByName("gb").value, y, x, c, r, s, v);
    if OffsetOf(y, x, r, s).Within(2) {
      GausBlurTable(r - y + 2, s - x + 2);
    }
  }

  /** "sh" multiplies it by nine; the pixels around it would become negative and stay dark. */
  lemma SharpenResponse(p: Picture, y: int, x: int, c: Channel, r: nat, s: nat, v: Byte)
    requires OneBright(p, c, r, s, v)
    ensures FilterByName("sh").Some? && FilterByName("sh").value.Valid()
    ensures ConvChannel(p, FilterByName("sh").value, y, x, c)
         == if y == r && x == s then (if 9 * v > 255 then 255 else 9 * v) else 0
  {
    ShippedKernels("sh");
    BrightResponse(p, FilterByName("sh").value, y, x, c, r, s, v);
    if OffsetOf(y, x, r, s).Within(1) {
      SharpenTable(r - y + 1, s - x + 1);
    }
  }

  /** "em" adds it to the grey above and to the left of it and takes it away below and to the right, up to two pixels off. */
  lemma EmbossResponse(p: Picture, y: int, x: int, c: Channel, r: nat, s: nat, v: Byte)
    requires OneBright(p, c, r, s, v)
    ensures FilterByName("em").Some? && FilterByName("em").value.Valid()
    ensures var o := OffsetOf(y, x, r, s);
            ConvChannel(p, FilterByName("em").value, y, x, c)
            == if !o.Within(2) || o.down + o.right == 0 then 128
               else if o.down + o.right < 0 then (if v > 128 then 0 else 128 - v)
               else (if v > 127 then 255 else 128 + v)
  {
    ShippedKernels("em");
    BrightResponse(p, FilterByName("em").value, y, x, c, r, s, v);
    if OffsetOf(y, x, r, s).Within(2) {
      EmbossTable(r - y + 2, s - x + 2);
    }
  }

  /** "bo" spreads it evenly over 15 by 15 pixels. */
  lemma BoxBlurResponse(p: Picture, y: int, x: int, c: Channel, r: nat, s: nat, v: Byte)
    requires OneBright(p, c, r, s, v)
    ensures FilterByName("bo").Some? && FilterByName("bo").value.Valid()
    ensures ConvChannel(p, FilterByName("bo").value, y, x, c) == if OffsetOf(y, x, r, s).Within(7) then Nearest(v, 225) else 0
  {
    ShippedKernels("bo");
    BrightResponse(p, FilterByName("bo").value, y, x, c, r, s, v);
    if OffsetOf(y, x, r, s).Within(7) {
      BoxBlurTable(r - y + 7, s - x + 7);
    }
  }

  /** "mg" and "gg" spread it by their tables. */
  lemma MedGausResponse(p: Picture, y: int, x: int, c: Channel, r: nat, s: nat, v: Byte)
    requires OneBright(p, c, r, s, v)
    ensures FilterByName("mg").Some? && FilterByName("mg").value.Valid() && FilterByName("mg").value.size == 9
    ensures var o := OffsetOf(y, x, r, s);
            ConvChannel(p, FilterByName("mg").value, y, x, c)
            == if o.Within(4) then Saturate(RoundQuotient(v * MED_GAUS[o.down + 4][o.right + 4], 213)) else 0
  {
    ShippedKernels("mg");
    BrightResponse(p, FilterByName("mg").value, y, x, c, r, s, v);
  }

  lemma BigGausResponse(p: Picture, y: int, x: int, c: Channel, r: nat, s: nat, v: Byte)
    requires OneBright(p, c, r, s, v)
    ensures FilterByName("gg").Some? && FilterByName("gg").value.Valid() && FilterByName("gg").value.size == 15
    ensures var o := OffsetOf(y, x, r, s);
            ConvChannel(p, FilterByName("gg").value, y, x, c)
            == if o.Within(7) then Saturate(RoundQuotient(v * BIG_GAUS[o.down + 7][o.right + 7], 771)) else 0
  {
    ShippedKernels("gg");
    BrightResponse(p, FilterByName("gg").value, y, x, c, r, s, v);
  }
}

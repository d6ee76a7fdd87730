/** The brightness/contrast remap of `applyAdjustments` in script.js.

    Every R, G and B sample is shifted by a brightness offset, rescaled around
    mid-gray 128 by a contrast factor, and clamped to [0, 255]; the alpha
    sample of each pixel is left alone. Samples are exact `real`s: the
    rounding that the clamped byte array applies on store is not modelled. */
module Adjustments {

  /** The additive offset for a brightness slider value given in percent. */
  function BrightnessOffset(percent: real): (offset: real)
    ensures -100.0 <= percent <= 100.0 ==> -255.0 <= offset <= 255.0
    ensures offset == 0.0 <==> percent == 0.0
    ensures percent == 100.0 ==> offset == 255.0
  {
    percent * 2.55
  }

  /** The contrast factor for an integer contrast setting `c`. Zero is
      special-cased to exactly 1; otherwise it is the usual
      259 (c + 255) / (255 (259 - c)), undefined at 259. */
  function ContrastFactor(c: int): (f: real)
    requires c != 259
  {
    if c == 0 then 1.0 else (259 * (c + 255)) as real / (255 * (259 - c)) as real
  }

  /** What the contrast factor does to the slope around mid-gray: settings in
      (-255, 0) flatten it, 0 keeps it, (0, 259) steepen it, -255 makes every
      sample mid-gray, and settings below -255 or above 259 invert it. */
  lemma ContrastFactorRange(c: int)
    requires c != 259
    ensures c == 0 ==> ContrastFactor(c) == 1.0
    ensures -255 < c < 0 ==> 0.0 < ContrastFactor(c) < 1.0
    ensures 0 < c < 259 ==> 1.0 < ContrastFactor(c)
    ensures c == -255 ==> ContrastFactor(c) == 0.0
    ensures c < -255 || 259 < c ==> ContrastFactor(c) < 0.0
  {
    if c != 0 {
      var n := (259 * (c + 255)) as real;
      var d := (255 * (259 - c)) as real;
      if c < 259 {
        assert 0.0 < d;
        if -255 < c < 0 {
          assert 0.0 < n < d;
          DivBelowOne(n, d);
        } else if 0 < c {
          assert d < n;
          DivAboveOne(n, d);
        }
      } else {
        assert d < 0.0 < n;
        assert n / d == -(n / -d);
      }
    }
  }

  lemma MulNonNegative(a: real, b: real)
    requires 0.0 <= a && 0.0 <= b
    ensures 0.0 <= a * b
  {
  }

  lemma DivBelowOne(n: real, d: real)
    requires 0.0 < n < d
    ensures 0.0 < n / d < 1.0
  {
    var q := n / d;
    assert q * d == n;
    MulNonNegative(d, 1.0 - q);
  }

  lemma DivAboveOne(n: real, d: real)
    requires 0.0 < d < n
    ensures 1.0 < n / d
  {
    var q := n / d;
    assert q * d == n;
    if q <= 1.0 {
      MulNonNegative(d, 1.0 - q);
    }
  }

  /** The special case at 0 is the value the formula would give there too, so
      the factor is one formula over the whole domain. */
  lemma ContrastZeroAgrees()
    ensures (259 * (0 + 255)) as real / (255 * (259 - 0)) as real == ContrastFactor(0)
  {
    assert (259 * 255) as real == (255 * 259) as real;
  }

  /** Below the singular point the contrast factor grows strictly with the setting. */
  lemma ContrastFactorMonotone(c1: int, c2: int)
    requires c1 < c2 < 259
    ensures ContrastFactor(c1) < ContrastFactor(c2)
  {
    ContrastZeroAgrees();
    var n1, d1 := (259 * (c1 + 255)) as real, (255 * (259 - c1)) as real;
    var n2, d2 := (259 * (c2 + 255)) as real, (255 * (259 - c2)) as real;
    assert ContrastFactor(c1) == n1 / d1;
    assert ContrastFactor(c2) == n2 / d2;
    assert n1 * d2 < n2 * d1 by {
      assert n1 * d2 == 259.0 * 255.0 * ((c1 + 255) * (259 - c2)) as real;
      assert n2 * d1 == 259.0 * 255.0 * ((c2 + 255) * (259 - c1)) as real;
      assert (c1 + 255) * (259 - c2) - (c2 + 255) * (259 - c1) == 514 * (c1 - c2);
    }
    CrossLess(n1, d1, n2, d2);
  }

  lemma CrossLess(n1: real, d1: real, n2: real, d2: real)
    requires 0.0 < d1 && 0.0 < d2 && n1 * d2 < n2 * d1
    ensures n1 / d1 < n2 / d2
  {
    assert n1 / d1 * d1 == n1;
    assert n2 / d2 * d2 == n2;
    assert (n1 / d1) * (d1 * d2) < (n2 / d2) * (d1 * d2);
  }

  function Min(a: real, b: real): real
  {
    if a <= b then a else b
  }

  function Max(a: real, b: real): real
  {
    if a >= b then a else b
  }

  /** `Math.min(255, Math.max(0, v))`: a hard floor and ceiling, not a wrap-around. */
  function Clamp(v: real): (r: real)
    ensures 0.0 <= r <= 255.0
    ensures 0.0 <= v <= 255.0 ==> r == v
    ensures v < 0.0 ==> r == 0.0
    ensures 255.0 < v ==> r == 255.0
  {
    Min(255.0, Max(0.0, v))
  }

  /** The clamp never reorders two samples. */
  lemma ClampMonotone(a: real, b: real)
    requires a <= b
    ensures Clamp(a) <= Clamp(b)
  {
  }

  /** A colour sample before the clamp: brightness first, then contrast
      around 128. */
  function Rescaled(v: real, offset: real, factor: real): real
  {
    factor * ((v + offset) - 128.0) + 128.0
  }

  /** One colour sample after the remap: rescaled, then clamped. */
  function AdjustChannel(v: real, offset: real, factor: real): (r: real)
    ensures 0.0 <= r <= 255.0
  {
    Clamp(Rescaled(v, offset, factor))
  }

  /** With no brightness offset and contrast factor 1 an in-range sample is unchanged. */
  lemma AdjustChannelIdentity(v: real)
    requires 0.0 <= v <= 255.0
    ensures AdjustChannel(v, BrightnessOffset(0.0), ContrastFactor(0)) == v
  {
    assert 1.0 * ((v + 0.0) - 128.0) + 128.0 == v;
  }

  /** A non-negative contrast factor keeps the order of samples: a darker
      input never comes out brighter. */
  lemma {:induction false} AdjustChannelMonotone(v1: real, v2: real, offset: real, factor: real)
    requires v1 <= v2 && 0.0 <= factor
    ensures AdjustChannel(v1, offset, factor) <= AdjustChannel(v2, offset, factor)
  {
    var a := Rescaled(v1, offset, factor);
    var b := Rescaled(v2, offset, factor);
    assert a <= b by {
      assert b - a == factor * (v2 - v1);
      MulNonNegative(factor, v2 - v1);
    }
    ClampMonotone(a, b);
  }

  /** The RGBA buffer after the remap: colour samples adjusted, alpha (every
      fourth sample, from index 3) as it was. */
  function Adjusted(s: seq<real>, offset: real, factor: real): (r: seq<real>)
  {
    seq(|s|, i requires 0 <= i < |s| => if i % 4 == 3 then s[i] else AdjustChannel(s[i], offset, factor))
  }

  /** With brightness 0 and contrast 0 the remap is the identity on a buffer
      whose samples are already in [0, 255]. */
  lemma AdjustedIdentity(s: seq<real>)
    requires forall i :: 0 <= i < |s| ==> 0.0 <= s[i] <= 255.0
    ensures Adjusted(s, BrightnessOffset(0.0), ContrastFactor(0)) == s
  {
    var r := Adjusted(s, BrightnessOffset(0.0), ContrastFactor(0));
    forall i | 0 <= i < |s|
      ensures r[i] == s[i]
    {
      if i % 4 != 3 { AdjustChannelIdentity(s[i]); }
    }
  }

  /** Adjusting twice with identity settings changes nothing more: the remap
      with brightness 0 and contrast 0 is idempotent on any buffer. */
  lemma AdjustedIdentityIdempotent(s: seq<real>)
    ensures Adjusted(Adjusted(s, BrightnessOffset(0.0), ContrastFactor(0)), BrightnessOffset(0.0), ContrastFactor(0))
         == Adjusted(s, BrightnessOffset(0.0), ContrastFactor(0))
  {
    var r := Adjusted(s, BrightnessOffset(0.0), ContrastFactor(0));
    forall i | 0 <= i < |r|
      ensures 0.0 <= r[i] <= 255.0 || i % 4 == 3
    {
    }
    var rr := Adjusted(r, BrightnessOffset(0.0), ContrastFactor(0));
    forall i | 0 <= i < |r|
      ensures rr[i] == r[i]
    {
      if i % 4 != 3 { AdjustChannelIdentity(r[i]); }
    }
  }

  /** The pixel loop of `applyAdjustments`, in place over the RGBA buffer,
      four samples at a time. */
  method ApplyAdjustments(data: array<real>, brightnessPercent: real, contrastValue: int)
    requires data.Length % 4 == 0
    requires contrastValue != 259
    modifies data
    ensures data[..] == Adjusted(old(data[..]), BrightnessOffset(brightnessPercent), ContrastFactor(contrastValue))
    ensures forall i :: 0 <= i < data.Length && i % 4 != 3 ==> 0.0 <= data[i] <= 255.0
    ensures forall i :: 0 <= i < data.Length && i % 4 == 3 ==> data[i] == old(data[i])
  {
    ghost var s := data[..];
    var brightness := BrightnessOffset(brightnessPercent);
    var contrast := ContrastFactor(contrastValue);
    var i := 0;
    while i < data.Length
      invariant 0 <= i <= data.Length && i % 4 == 0
      invariant forall j :: 0 <= j < i && j % 4 == 3 ==> data[j] == s[j]
      invariant forall j :: 0 <= j < i && j % 4 != 3 ==> data[j] == AdjustChannel(s[j], brightness, contrast)
      invariant forall j :: i <= j < data.Length ==> data[j] == s[j]
    {
      PixelLanes(i, data.Length);
      // Brightness
      var r := data[i] + brightness;
      var g := data[i + 1] + brightness;
      var b := data[i + 2] + brightness;
      // Contrast
      r := contrast * (r - 128.0) + 128.0;
      g := contrast * (g - 128.0) + 128.0;
      b := contrast * (b - 128.0) + 128.0;
      assert r == Rescaled(s[i], brightness, contrast);
      assert g == Rescaled(s[i + 1], brightness, contrast);
      assert b == Rescaled(s[i + 2], brightness, contrast);
      // Keep values between 0 and 255
      data[i] := Min(255.0, Max(0.0, r));
      data[i + 1] := Min(255.0, Max(0.0, g));
      data[i + 2] := Min(255.0, Max(0.0, b));
      i := i + 4;
    }
    assert data[..] == Adjusted(s, brightness, contrast);
  }

  /** The four samples from a pixel boundary are R, G, B and alpha, and the
      next pixel starts inside the buffer or at its end. */
  lemma PixelLanes(i: int, n: int)
    requires 0 <= i < n && i % 4 == 0 && n % 4 == 0
    ensures i + 3 < n
    ensures (i + 1) % 4 == 1 && (i + 2) % 4 == 2 && (i + 3) % 4 == 3 && (i + 4) % 4 == 0
  {
  }
}

/** Floyd-Steinberg error-diffusion dithering of an RGBA pixel buffer
    (`ditherMethods.floydSteinberg` in script.js).

    The pixel buffer holds four interleaved channels R, G, B, A per pixel, row
    by row. The ditherer turns it into a one-channel luminance buffer, walks
    that buffer in raster order thresholding every pixel to 0 or 255 and
    pushing the signed quantisation error onto the not-yet-visited neighbours,
    and finally writes the 0/255 value back into R, G and B.

    Every sample is an exact `real`: the rounding of the source's Float32Array
    and of the clamped byte array is not modelled. */
module Dithering {

  // ---------------------------------------------------------------------------
  // Luminance
  // ---------------------------------------------------------------------------

  /** Perceptual luma with the weights of section 2.5.1 of ITU-R BT.601. */
  function Luma(r: real, g: real, b: real): (l: real)
    ensures 0.0 <= r <= 255.0 && 0.0 <= g <= 255.0 && 0.0 <= b <= 255.0 ==> 0.0 <= l <= 255.0
    ensures r == g == b ==> l == r
  {
    0.299 * r + 0.587 * g + 0.114 * b
  }

  /** The luminance buffer of `n` RGBA pixels: one sample per pixel. */
  function Luminance(data: seq<real>, n: nat): (lum: seq<real>)
    requires |data| == 4 * n
  {
    seq(n, k requires 0 <= k < n => Luma(data[4 * k], data[4 * k + 1], data[4 * k + 2]))
  }

  /** Fills a fresh luminance buffer from the RGBA buffer, stepping four samples at a time. */
  method Grayscale(data: array<real>, width: nat, height: nat) returns (buffer: array<real>)
    requires data.Length == 4 * (width * height)
    ensures fresh(buffer)
    ensures buffer[..] == Luminance(data[..], width * height)
  {
    buffer := new real[width * height];
    var i := 0;
    while i < data.Length
      invariant 0 <= i <= data.Length && i % 4 == 0
      invariant forall k :: 0 <= k < i / 4 ==> buffer[k] == Luma(data[4 * k], data[4 * k + 1], data[4 * k + 2])
    {
      buffer[i / 4] := 0.299 * data[i] + 0.587 * data[i + 1] + 0.114 * data[i + 2];
      i := i + 4;
    }
  }

  // ---------------------------------------------------------------------------
  // One pixel visit
  // ---------------------------------------------------------------------------

  /** The black/white value a pixel is quantised to: the threshold is 128 and a tie goes to white. */
  function Threshold(v: real): (t: real)
    ensures t == 0.0 <==> v < 128.0
    ensures t == 255.0 <==> 128.0 <= v
    ensures 0.0 <= v <= 255.0 ==> -127.0 <= v - t < 128.0
  {
    if v < 128.0 then 0.0 else 255.0
  }

  /** The buffer index of the first pixel of row y in a row-major buffer `w`
      pixels wide; `RowStart(w, h)` is the pixel count of a w x h image. */
  function RowStart(w: nat, y: nat): nat
  {
    if y == 0 then 0 else RowStart(w, y - 1) + w
  }

  /** The buffer index of pixel (x, y). */
  function Index(w: nat, x: nat, y: nat): nat
  {
    RowStart(w, y) + x
  }

  /** `RowStart` is the product the source computes. */
  lemma {:induction false} RowStartIsProduct(w: nat, y: nat)
    ensures RowStart(w, y) == y * w
  {
    if y > 0 {
      RowStartIsProduct(w, y - 1);
      assert y * w == (y - 1) * w + w;
    }
  }

  /** A row strictly above row y2 ends no later than row y2 starts. */
  lemma {:induction false} RowBefore(w: nat, y1: nat, y2: nat)
    requires y1 < y2
    ensures RowStart(w, y1) + w <= RowStart(w, y2)
  {
    if y1 + 1 < y2 { RowBefore(w, y1, y2 - 1); }
  }

  /** Pixel (x, y) lies in the image, and so does a full row below it when there is one. */
  lemma VisitFits(w: nat, h: nat, x: nat, y: nat)
    requires x < w && y < h
    ensures Index(w, x, y) < RowStart(w, h)
    ensures y + 1 < h ==> RowStart(w, y) + 2 * w <= RowStart(w, h)
  {
    RowBefore(w, y, h);
    if y + 1 < h {
      RowBefore(w, y + 1, h);
    }
  }

  /** The cells one visit of pixel (x, y) may write, as the source's four
      guards spell them out: the pixel itself, its east neighbour when x + 1 < w,
      and when y + 1 < h its south neighbour, its south-west neighbour when
      x > 0 and its south-east neighbour when x + 1 < w. All of them lie in the
      image, and all but the pixel itself come later in raster order. */
  function Targets(w: nat, h: nat, x: nat, y: nat): (ts: set<int>)
    requires x < w && y < h
    ensures Index(w, x, y) in ts
    ensures forall t :: t in ts ==> Index(w, x, y) <= t < RowStart(w, h)
  {
    var idx := Index(w, x, y);
    VisitFits(w, h, x, y);
    var east := if x + 1 < w then {idx + 1} else {};
    if y + 1 < h then
      var southWest := if x > 0 then {idx + w - 1} else {};
      var southEast := if x + 1 < w then {idx + w + 1} else {};
      {idx} + east + southWest + {idx + w} + southEast
    else
      {idx} + east
  }

  /** One entry of the diffusion kernel: the neighbour at offset (dx, dy)
      receives `sixteenths`/16 of the error. */
  datatype Share = Share(dx: int, dy: nat, sixteenths: nat)

  /** The Floyd-Steinberg kernel, in the order the source applies it:
      east 7/16, south-west 3/16, south 5/16, south-east 1/16. */
  const Kernel: seq<Share> := [Share(1, 0, 7), Share(-1, 1, 3), Share(0, 1, 5), Share(1, 1, 1)]

  /** Whether the neighbour that `sh` names lies inside the image; the source
      guards each `+=` with exactly this test. */
  predicate Receives(w: nat, h: nat, x: nat, y: nat, sh: Share)
  {
    0 <= x + sh.dx < w && y + sh.dy < h
  }

  /** The buffer index of the neighbour that `sh` names, when it is in the image. */
  function Neighbour(w: nat, h: nat, x: nat, y: nat, sh: Share): nat
    requires Receives(w, h, x, y, sh)
  {
    Index(w, x + sh.dx, y + sh.dy)
  }

  /** The neighbour a kernel share reaches from (x, y) is one of the cells the
      visit may write, and comes after (x, y) in raster order. */
  lemma NeighbourIsTarget(w: nat, h: nat, x: nat, y: nat, k: nat)
    requires x < w && y < h && k < |Kernel| && Receives(w, h, x, y, Kernel[k])
    ensures Neighbour(w, h, x, y, Kernel[k]) in Targets(w, h, x, y)
    ensures Index(w, x, y) < Neighbour(w, h, x, y, Kernel[k]) < RowStart(w, h)
  {
    var ts := Targets(w, h, x, y);
    assert RowStart(w, y + 1) == RowStart(w, y) + w;
  }

  /** `n` sixteenths of `err`, as a sum of n parts; `PortionIsFraction`
      shows it is the source's `err * n / 16`. */
  function Portion(err: real, n: nat): real
  {
    if n == 0 then 0.0 else Portion(err, n - 1) + err / 16.0
  }

  lemma {:induction false} PortionIsFraction(err: real, n: nat)
    ensures Portion(err, n) == err * n as real / 16.0
  {
    if n > 0 {
      PortionIsFraction(err, n - 1);
      assert err * n as real == err * (n - 1) as real + err;
    }
  }

  /** The first k shares of the kernel applied to `s`, each adding its part of
      `err` to its neighbour when that neighbour lies in the image. */
  function Spreads(s: seq<real>, w: nat, h: nat, x: nat, y: nat, err: real, k: nat): (r: seq<real>)
    requires |s| == RowStart(w, h) && x < w && y < h && k <= |Kernel|
    ensures |r| == |s|
  {
    if k == 0 then s
    else
      var prev := Spreads(s, w, h, x, y, err, k - 1);
      var sh := Kernel[k - 1];
      if Receives(w, h, x, y, sh) then
        NeighbourIsTarget(w, h, x, y, k - 1);
        var n := Neighbour(w, h, x, y, sh);
        prev[n := prev[n] + Portion(err, sh.sixteenths)]
      else prev
  }

  /** The buffer after visiting pixel (x, y): the pixel is overwritten with its
      threshold and the error `old - new` is spread over its neighbours by the kernel. */
  function Step(s: seq<real>, w: nat, h: nat, x: nat, y: nat): (r: seq<real>)
    requires |s| == RowStart(w, h) && x < w && y < h
    ensures |r| == |s|
  {
    VisitFits(w, h, x, y);
    var idx := Index(w, x, y);
    var newVal := Threshold(s[idx]);
    Spreads(s[idx := newVal], w, h, x, y, s[idx] - newVal, |Kernel|)
  }

  /** Adds `amount` to cell `i` when `cond` holds: one guarded `+=` of the source. */
  function Spread(s: seq<real>, cond: bool, i: int, amount: real): (r: seq<real>)
    requires cond ==> 0 <= i < |s|
    ensures |r| == |s|
  {
    if cond then s[i := s[i] + amount] else s
  }

  /** The kernel table, share by share, is the source's four guarded lines:
      east, south-west, south and south-east with 7, 3, 5 and 1 sixteenths. */
  lemma KernelSpelledOut(w: nat, h: nat, x: nat, y: nat)
    requires x < w && y < h
    ensures Receives(w, h, x, y, Kernel[0]) <==> x + 1 < w
    ensures Receives(w, h, x, y, Kernel[1]) <==> x > 0 && y + 1 < h
    ensures Receives(w, h, x, y, Kernel[2]) <==> y + 1 < h
    ensures Receives(w, h, x, y, Kernel[3]) <==> x + 1 < w && y + 1 < h
    ensures Receives(w, h, x, y, Kernel[0]) ==> Neighbour(w, h, x, y, Kernel[0]) == Index(w, x, y) + 1
    ensures Receives(w, h, x, y, Kernel[1]) ==> Neighbour(w, h, x, y, Kernel[1]) == Index(w, x, y) + w - 1
    ensures Receives(w, h, x, y, Kernel[2]) ==> Neighbour(w, h, x, y, Kernel[2]) == Index(w, x, y) + w
    ensures Receives(w, h, x, y, Kernel[3]) ==> Neighbour(w, h, x, y, Kernel[3]) == Index(w, x, y) + w + 1
    ensures Kernel[0].sixteenths == 7 && Kernel[1].sixteenths == 3
    ensures Kernel[2].sixteenths == 5 && Kernel[3].sixteenths == 1
  {
    assert RowStart(w, y + 1) == RowStart(w, y) + w;
  }

  /** Share k - 1 of the kernel is one guarded `+=` on top of the shares before it. */
  lemma SpreadsLast(s: seq<real>, w: nat, h: nat, x: nat, y: nat, err: real, k: nat, c: bool, i: int, amount: real)
    requires |s| == RowStart(w, h) && x < w && y < h && 0 < k <= |Kernel|
    requires c <==> Receives(w, h, x, y, Kernel[k - 1])
    requires c ==> i == Neighbour(w, h, x, y, Kernel[k - 1])
    requires amount == Portion(err, Kernel[k - 1].sixteenths)
    ensures c ==> 0 <= i < |s|
    ensures Spreads(s, w, h, x, y, err, k) == Spread(Spreads(s, w, h, x, y, err, k - 1), c, i, amount)
  {
    if c { NeighbourIsTarget(w, h, x, y, k - 1); }
  }

  /** The first two shares of the kernel are the source's east and south-west
      lines. */
  lemma SpreadsFirstTwo(s: seq<real>, w: nat, h: nat, x: nat, y: nat, err: real)
    requires |s| == RowStart(w, h) && x < w && y < h
    ensures Index(w, x, y) < |s|
    ensures y + 1 < h ==> RowStart(w, y) + 2 * w <= |s|
    ensures Spreads(s, w, h, x, y, err, 2)
         == Spread(Spread(s, x + 1 < w, Index(w, x, y) + 1, err * 7.0 / 16.0),
                   x > 0 && y + 1 < h, Index(w, x, y) + w - 1, err * 3.0 / 16.0)
  {
    VisitFits(w, h, x, y);
    KernelSpelledOut(w, h, x, y);
    var idx := Index(w, x, y);
    PortionIsFraction(err, 7);
    PortionIsFraction(err, 3);
    assert Spreads(s, w, h, x, y, err, 0) == s;
    SpreadsLast(s, w, h, x, y, err, 1, x + 1 < w, idx + 1, err * 7.0 / 16.0);
    SpreadsLast(s, w, h, x, y, err, 2, x > 0 && y + 1 < h, idx + w - 1, err * 3.0 / 16.0);
  }

  /** The last two shares of the kernel are the source's south and south-east
      lines. */
  lemma SpreadsLastTwo(s: seq<real>, w: nat, h: nat, x: nat, y: nat, err: real)
    requires |s| == RowStart(w, h) && x < w && y < h
    ensures Index(w, x, y) < |s|
    ensures y + 1 < h ==> RowStart(w, y) + 2 * w <= |s|
    ensures Spreads(s, w, h, x, y, err, 4)
         == Spread(Spread(Spreads(s, w, h, x, y, err, 2), y + 1 < h, Index(w, x, y) + w, err * 5.0 / 16.0),
                   x + 1 < w && y + 1 < h, Index(w, x, y) + w + 1, err * 1.0 / 16.0)
  {
    VisitFits(w, h, x, y);
    KernelSpelledOut(w, h, x, y);
    var idx := Index(w, x, y);
    PortionIsFraction(err, 5);
    PortionIsFraction(err, 1);
    SpreadsLast(s, w, h, x, y, err, 3, y + 1 < h, idx + w, err * 5.0 / 16.0);
    SpreadsLast(s, w, h, x, y, err, 4, x + 1 < w && y + 1 < h, idx + w + 1, err * 1.0 / 16.0);
  }

  /** The kernel table does what the four guarded lines of the source do, in
      the same order, with the same fractions of the error. */
  lemma SpreadsSpelledOut(s: seq<real>, w: nat, h: nat, x: nat, y: nat, err: real)
    requires |s| == RowStart(w, h) && x < w && y < h
    ensures Index(w, x, y) < |s|
    ensures y + 1 < h ==> RowStart(w, y) + 2 * w <= |s|
    ensures Spreads(s, w, h, x, y, err, |Kernel|)
         == Spread(Spread(Spread(Spread(s, x + 1 < w, Index(w, x, y) + 1, err * 7.0 / 16.0),
                                 x > 0 && y + 1 < h, Index(w, x, y) + w - 1, err * 3.0 / 16.0),
                          y + 1 < h, Index(w, x, y) + w, err * 5.0 / 16.0),
                   x + 1 < w && y + 1 < h, Index(w, x, y) + w + 1, err * 1.0 / 16.0)
  {
    SpreadsFirstTwo(s, w, h, x, y, err);
    SpreadsLastTwo(s, w, h, x, y, err);
  }

  /** Spreading writes only kernel neighbours, so it leaves every cell outside
      `Targets`, the pixel itself and everything before it unchanged. */
  lemma {:induction false} SpreadsFrame(s: seq<real>, w: nat, h: nat, x: nat, y: nat, err: real, k: nat)
    requires |s| == RowStart(w, h) && x < w && y < h && k <= |Kernel|
    ensures forall j :: 0 <= j < |s| && (j !in Targets(w, h, x, y) || j <= Index(w, x, y)) ==>
      Spreads(s, w, h, x, y, err, k)[j] == s[j]
  {
    if k > 0 {
      SpreadsFrame(s, w, h, x, y, err, k - 1);
      if Receives(w, h, x, y, Kernel[k - 1]) {
        NeighbourIsTarget(w, h, x, y, k - 1);
      }
    }
  }

  /** A visit quantises its own pixel, changes nothing outside `Targets`, and so
      never touches a pixel visited before it. */
  lemma StepEffect(s: seq<real>, w: nat, h: nat, x: nat, y: nat)
    requires |s| == RowStart(w, h) && x < w && y < h
    ensures Index(w, x, y) < |s|
    ensures Step(s, w, h, x, y)[Index(w, x, y)] == Threshold(s[Index(w, x, y)])
    ensures forall j :: 0 <= j < |s| && j !in Targets(w, h, x, y) ==> Step(s, w, h, x, y)[j] == s[j]
    ensures forall j :: 0 <= j < Index(w, x, y) ==> Step(s, w, h, x, y)[j] == s[j]
  {
    VisitFits(w, h, x, y);
    var idx := Index(w, x, y);
    var newVal := Threshold(s[idx]);
    SpreadsFrame(s[idx := newVal], w, h, x, y, s[idx] - newVal, |Kernel|);
  }

  // ---------------------------------------------------------------------------
  // The raster walk
  // ---------------------------------------------------------------------------

  /** Whether (x, y) is a position of the raster walk: pixel x of row y, with
      x == w meaning "row y done", and (0, h) meaning "all rows done". */
  predicate InWalk(w: nat, h: nat, x: nat, y: nat)
  {
    (y < h && x <= w) || (y == h && x == 0)
  }

  /** The buffer once the walk has visited rows 0..y-1 and the first x pixels of row y. */
  function Walked(s: seq<real>, w: nat, h: nat, y: nat, x: nat): (r: seq<real>)
    requires |s| == RowStart(w, h) && InWalk(w, h, x, y)
    ensures |r| == |s|
    decreases y, x
  {
    if x == 0 then
      if y == 0 then s else Walked(s, w, h, y - 1, w)
    else
      Step(Walked(s, w, h, y, x - 1), w, h, x - 1, y)
  }

  /** The luminance buffer after the whole walk. */
  function Dithered(s: seq<real>, w: nat, h: nat): (r: seq<real>)
    requires |s| == w * h
  {
    RowStartIsProduct(w, h);
    Walked(s, w, h, h, 0)
  }

  /** Every pixel the walk has visited holds 0 or 255. */
  lemma {:induction false} WalkedBinary(s: seq<real>, w: nat, h: nat, y: nat, x: nat)
    requires |s| == RowStart(w, h) && InWalk(w, h, x, y)
    ensures Index(w, x, y) <= |s|
    ensures forall j :: 0 <= j < Index(w, x, y) ==> Walked(s, w, h, y, x)[j] == 0.0 || Walked(s, w, h, y, x)[j] == 255.0
    decreases y, x
  {
    if x == 0 {
      if y > 0 {
        WalkedBinary(s, w, h, y - 1, w);
        assert Index(w, w, y - 1) == Index(w, 0, y);
      }
    } else {
      var prev := Walked(s, w, h, y, x - 1);
      WalkedBinary(s, w, h, y, x - 1);
      StepEffect(prev, w, h, x - 1, y);
    }
  }

  /** After the whole walk every entry of the luminance buffer is exactly 0 or 255. */
  lemma DitheredBinary(s: seq<real>, w: nat, h: nat)
    requires |s| == w * h
    ensures |Dithered(s, w, h)| == |s|
    ensures forall j :: 0 <= j < |s| ==> Dithered(s, w, h)[j] == 0.0 || Dithered(s, w, h)[j] == 255.0
  {
    RowStartIsProduct(w, h);
    WalkedBinary(s, w, h, h, 0);
  }

  /** Raster order on walk positions. */
  predicate NotAfter(x1: nat, y1: nat, x2: nat, y2: nat)
  {
    y1 < y2 || (y1 == y2 && x1 <= x2)
  }

  /** The visit that advances the walk from (x - 1, y) to (x, y) leaves every
      earlier pixel as it was. */
  lemma VisitKeepsEarlier(s: seq<real>, w: nat, h: nat, y: nat, x: nat)
    requires |s| == RowStart(w, h) && InWalk(w, h, x, y) && x > 0
    ensures Index(w, x - 1, y) < |s|
    ensures forall j :: 0 <= j < Index(w, x - 1, y) ==> Walked(s, w, h, y, x)[j] == Walked(s, w, h, y, x - 1)[j]
  {
    StepEffect(Walked(s, w, h, y, x - 1), w, h, x - 1, y);
  }

  /** A pixel, once visited, is never written again: later states of the walk
      agree with earlier ones on every visited pixel. */
  lemma {:induction false} VisitedStable(s: seq<real>, w: nat, h: nat, y1: nat, x1: nat, y2: nat, x2: nat)
    requires |s| == RowStart(w, h) && InWalk(w, h, x1, y1) && InWalk(w, h, x2, y2)
    requires NotAfter(x1, y1, x2, y2)
    ensures Index(w, x1, y1) <= |s|
    ensures forall j :: 0 <= j < Index(w, x1, y1) ==> Walked(s, w, h, y2, x2)[j] == Walked(s, w, h, y1, x1)[j]
    decreases y2, x2
  {
    if y1 < h { RowBefore(w, y1, h); }
    if y1 == y2 && x1 == x2 {
    } else if x2 == 0 {
      VisitedStable(s, w, h, y1, x1, y2 - 1, w);
    } else {
      VisitedStable(s, w, h, y1, x1, y2, x2 - 1);
      VisitKeepsEarlier(s, w, h, y2, x2);
      if y1 < y2 { RowBefore(w, y1, y2); }
    }
  }

  // ---------------------------------------------------------------------------
  // Where the error goes
  // ---------------------------------------------------------------------------

  /** Sum of a buffer. */
  function Sum(s: seq<real>): real
  {
    if s == [] then 0.0 else Sum(s[..|s| - 1]) + s[|s| - 1]
  }

  /** Changing one cell changes the sum by exactly the difference. */
  lemma {:induction false} SumUpdate(s: seq<real>, i: nat, v: real)
    requires i < |s|
    ensures Sum(s[i := v]) == Sum(s) - s[i] + v
    decreases |s|
  {
    var n := |s| - 1;
    if i < n {
      SumUpdate(s[..n], i, v);
      assert s[i := v][..n] == s[..n][i := v];
    } else {
      assert s[i := v][..n] == s[..n];
    }
  }

  /** Sixteenths of the error that the first k kernel shares deliver from (x, y). */
  function ReceivedWeight(w: nat, h: nat, x: nat, y: nat, k: nat): nat
    requires k <= |Kernel|
  {
    if k == 0 then 0
    else ReceivedWeight(w, h, x, y, k - 1) + (if Receives(w, h, x, y, Kernel[k - 1]) then Kernel[k - 1].sixteenths else 0)
  }

  /** The whole kernel delivers from (x, y) the weights of the neighbours the
      source's four guards let through. */
  lemma ReceivedWeightAll(w: nat, h: nat, x: nat, y: nat)
    requires x < w && y < h
    ensures ReceivedWeight(w, h, x, y, |Kernel|)
         == (if x + 1 < w then 7 else 0) + (if x > 0 && y + 1 < h then 3 else 0)
          + (if y + 1 < h then 5 else 0) + (if x + 1 < w && y + 1 < h then 1 else 0)
  {
    assert ReceivedWeight(w, h, x, y, 1) == (if x + 1 < w then 7 else 0);
    assert ReceivedWeight(w, h, x, y, 2) == ReceivedWeight(w, h, x, y, 1) + (if x > 0 && y + 1 < h then 3 else 0);
    assert ReceivedWeight(w, h, x, y, 3) == ReceivedWeight(w, h, x, y, 2) + (if y + 1 < h then 5 else 0);
    assert ReceivedWeight(w, h, x, y, 4) == ReceivedWeight(w, h, x, y, 3) + (if x + 1 < w && y + 1 < h then 1 else 0);
  }

  /** How many sixteenths of the error a visit of (x, y) passes on. It is 16
      exactly for the pixels with all four neighbours; at the edges the missing
      neighbours' shares are lost, not redistributed. */
  function DeliveredWeight(w: nat, h: nat, x: nat, y: nat): (k: nat)
    requires x < w && y < h
    ensures k <= 16
    ensures k == 16 <==> 0 < x && x + 1 < w && y + 1 < h
    ensures x + 1 >= w && y + 1 >= h ==> k == 0
    ensures x == 0 && x + 1 < w && y + 1 < h ==> k == 13
  {
    ReceivedWeightAll(w, h, x, y);
    ReceivedWeight(w, h, x, y, |Kernel|)
  }

  /** The amount of `err` that the first k kernel shares hand to neighbours
      inside the image. */
  function Delivered(w: nat, h: nat, x: nat, y: nat, err: real, k: nat): real
    requires k <= |Kernel|
  {
    if k == 0 then 0.0
    else
      var sh := Kernel[k - 1];
      Delivered(w, h, x, y, err, k - 1) + (if Receives(w, h, x, y, sh) then Portion(err, sh.sixteenths) else 0.0)
  }

  /** What the whole kernel hands on is `DeliveredWeight` sixteenths of the error. */
  lemma DeliveredIsWeighted(w: nat, h: nat, x: nat, y: nat, err: real)
    requires x < w && y < h
    ensures Delivered(w, h, x, y, err, |Kernel|) == err * DeliveredWeight(w, h, x, y) as real / 16.0
  {
    PortionIsFraction(err, 7);
    PortionIsFraction(err, 3);
    PortionIsFraction(err, 5);
    PortionIsFraction(err, 1);
    assert Kernel[0] == Share(1, 0, 7) && Kernel[1] == Share(-1, 1, 3);
    assert Kernel[2] == Share(0, 1, 5) && Kernel[3] == Share(1, 1, 1);
    assert Delivered(w, h, x, y, err, 0) == 0.0;
    var d1 := Delivered(w, h, x, y, err, 1);
    assert d1 == if x + 1 < w then err * 7.0 / 16.0 else 0.0;
    var d2 := Delivered(w, h, x, y, err, 2);
    assert d2 == d1 + if x > 0 && y + 1 < h then err * 3.0 / 16.0 else 0.0;
    var d3 := Delivered(w, h, x, y, err, 3);
    assert d3 == d2 + if y + 1 < h then err * 5.0 / 16.0 else 0.0;
    assert Delivered(w, h, x, y, err, 4) == d3 + if x + 1 < w && y + 1 < h then err * 1.0 / 16.0 else 0.0;
    ReceivedWeightAll(w, h, x, y);
  }

  /** Applying kernel share k - 1 adds to the buffer's total exactly what that
      share delivers. */
  lemma ShareSum(s: seq<real>, w: nat, h: nat, x: nat, y: nat, err: real, k: nat)
    requires |s| == RowStart(w, h) && x < w && y < h && 0 < k <= |Kernel|
    ensures Sum(Spreads(s, w, h, x, y, err, k)) - Sum(Spreads(s, w, h, x, y, err, k - 1))
         == Delivered(w, h, x, y, err, k) - Delivered(w, h, x, y, err, k - 1)
  {
    var sh := Kernel[k - 1];
    var prev := Spreads(s, w, h, x, y, err, k - 1);
    if Receives(w, h, x, y, sh) {
      NeighbourIsTarget(w, h, x, y, k - 1);
      var n := Neighbour(w, h, x, y, sh);
      var part := Portion(err, sh.sixteenths);
      assert Spreads(s, w, h, x, y, err, k) == prev[n := prev[n] + part];
      SumUpdate(prev, n, prev[n] + part);
      assert Delivered(w, h, x, y, err, k) == Delivered(w, h, x, y, err, k - 1) + part;
    } else {
      assert Spreads(s, w, h, x, y, err, k) == prev;
      assert Delivered(w, h, x, y, err, k) == Delivered(w, h, x, y, err, k - 1);
    }
  }

  /** Spreading adds to the buffer's total exactly the error shares that land
      inside the image. */
  lemma {:induction false} SpreadsSum(s: seq<real>, w: nat, h: nat, x: nat, y: nat, err: real, k: nat)
    requires |s| == RowStart(w, h) && x < w && y < h && k <= |Kernel|
    ensures Sum(Spreads(s, w, h, x, y, err, k)) == Sum(s) + Delivered(w, h, x, y, err, k)
  {
    if k > 0 {
      SpreadsSum(s, w, h, x, y, err, k - 1);
      ShareSum(s, w, h, x, y, err, k);
    }
  }

  /** The part of a visit's error that is lost at the image edges. */
  function Lost(s: seq<real>, w: nat, h: nat, x: nat, y: nat): real
    requires |s| == RowStart(w, h) && x < w && y < h
  {
    VisitFits(w, h, x, y);
    var err := s[Index(w, x, y)] - Threshold(s[Index(w, x, y)]);
    err - Delivered(w, h, x, y, err, |Kernel|)
  }

  /** The loss is the `16 - DeliveredWeight` sixteenths of the error the kernel
      could not place; an interior pixel loses nothing. */
  lemma LostIsWeighted(s: seq<real>, w: nat, h: nat, x: nat, y: nat)
    requires |s| == RowStart(w, h) && x < w && y < h
    ensures Index(w, x, y) < |s|
    ensures Lost(s, w, h, x, y)
         == (s[Index(w, x, y)] - Threshold(s[Index(w, x, y)])) * (16 - DeliveredWeight(w, h, x, y)) as real / 16.0
    ensures 0 < x && x + 1 < w && y + 1 < h ==> Lost(s, w, h, x, y) == 0.0
  {
    VisitFits(w, h, x, y);
    var err := s[Index(w, x, y)] - Threshold(s[Index(w, x, y)]);
    DeliveredIsWeighted(w, h, x, y, err);
    var dw := DeliveredWeight(w, h, x, y) as real;
    assert err * (16.0 - dw) / 16.0 == err - err * dw / 16.0;
  }

  /** One visit keeps the buffer's total except for the share lost at the edges. */
  lemma StepSum(s: seq<real>, w: nat, h: nat, x: nat, y: nat)
    requires |s| == RowStart(w, h) && x < w && y < h
    ensures Sum(Step(s, w, h, x, y)) == Sum(s) - Lost(s, w, h, x, y)
  {
    VisitFits(w, h, x, y);
    var idx := Index(w, x, y);
    var newVal := Threshold(s[idx]);
    SumUpdate(s, idx, newVal);
    SpreadsSum(s[idx := newVal], w, h, x, y, s[idx] - newVal, |Kernel|);
  }

  /** Total error lost at the edges by the visits up to walk position (x, y). */
  function Dropped(s: seq<real>, w: nat, h: nat, y: nat, x: nat): real
    requires |s| == RowStart(w, h) && InWalk(w, h, x, y)
    decreases y, x
  {
    if x == 0 then
      if y == 0 then 0.0 else Dropped(s, w, h, y - 1, w)
    else
      Dropped(s, w, h, y, x - 1) + Lost(Walked(s, w, h, y, x - 1), w, h, x - 1, y)
  }

  /** Error diffusion conserves the buffer's total, up to exactly the shares
      dropped at the image edges. */
  lemma {:induction false} WalkedSum(s: seq<real>, w: nat, h: nat, y: nat, x: nat)
    requires |s| == RowStart(w, h) && InWalk(w, h, x, y)
    ensures Sum(Walked(s, w, h, y, x)) == Sum(s) - Dropped(s, w, h, y, x)
    decreases y, x
  {
    if x == 0 {
      if y > 0 { WalkedSum(s, w, h, y - 1, w); }
    } else {
      WalkedSum(s, w, h, y, x - 1);
      StepSum(Walked(s, w, h, y, x - 1), w, h, x - 1, y);
    }
  }

  /** A 2x1 strip of mid-gray 128 does not stay white: the first pixel ties to
      white and its error of -127 pulls the second below the threshold. */
  lemma MidGrayStrip()
    ensures Dithered([128.0, 128.0], 2, 1) == [255.0, 0.0]
  {
    var s := [128.0, 128.0];
    assert RowStart(2, 1) == 2;
    PortionIsFraction(-127.0, 7);
    var a := [255.0, 128.0 + Portion(-127.0, 7)];
    assert Spreads(s[0 := 255.0], 2, 1, 0, 0, -127.0, 1) == a;
    assert Kernel[1] == Share(-1, 1, 3) && Kernel[2] == Share(0, 1, 5) && Kernel[3] == Share(1, 1, 1);
    assert Spreads(s[0 := 255.0], 2, 1, 0, 0, -127.0, 2) == a;
    assert Spreads(s[0 := 255.0], 2, 1, 0, 0, -127.0, 3) == a;
    assert Spreads(s[0 := 255.0], 2, 1, 0, 0, -127.0, 4) == a;
    assert Step(s, 2, 1, 0, 0) == a;
    assert Walked(s, 2, 1, 0, 1) == a;
    assert Spreads(a[1 := 0.0], 2, 1, 1, 0, a[1], 1) == [255.0, 0.0];
    assert Spreads(a[1 := 0.0], 2, 1, 1, 0, a[1], 2) == [255.0, 0.0];
    assert Spreads(a[1 := 0.0], 2, 1, 1, 0, a[1], 3) == [255.0, 0.0];
    assert Spreads(a[1 := 0.0], 2, 1, 1, 0, a[1], 4) == [255.0, 0.0];
    assert Step(a, 2, 1, 1, 0) == [255.0, 0.0];
    assert Walked(s, 2, 1, 0, 2) == [255.0, 0.0];
    assert Walked(s, 2, 1, 1, 0) == [255.0, 0.0];
  }

  // ---------------------------------------------------------------------------
  // The in-place algorithm
  // ---------------------------------------------------------------------------

  /** One pass of the inner loop: quantises pixel (x, y) in place and pushes its
      error onto the in-image neighbours that are still to be visited. */
  method VisitPixel(buffer: array<real>, width: nat, height: nat, x: nat, y: nat)
    requires buffer.Length == RowStart(width, height) && x < width && y < height
    modifies buffer
    ensures buffer[..] == Step(old(buffer[..]), width, height, x, y)
  {
    ghost var s := buffer[..];
    VisitFits(width, height, x, y);
    RowStartIsProduct(width, y);
    var idx := y * width + x;
    assert idx == Index(width, x, y);
    var oldVal := buffer[idx];
    var newVal := if oldVal < 128.0 then 0.0 else 255.0;
    var err := oldVal - newVal;
    buffer[idx] := newVal;
    assert buffer[..] == s[idx := newVal];
    DistributeError(buffer, width, height, x, y, idx, err);
  }

  /** The four guarded lines after the overwrite: they hand `err` on to the
      in-image neighbours of pixel (x, y) as the kernel table says. */
  method DistributeError(buffer: array<real>, width: nat, height: nat, x: nat, y: nat, idx: nat, err: real)
    requires buffer.Length == RowStart(width, height) && x < width && y < height
    requires idx == Index(width, x, y)
    modifies buffer
    ensures buffer[..] == Spreads(old(buffer[..]), width, height, x, y, err, |Kernel|)
  {
    ghost var s := buffer[..];
    VisitFits(width, height, x, y);
    KernelSpelledOut(width, height, x, y);
    PortionIsFraction(err, 7);
    PortionIsFraction(err, 3);
    PortionIsFraction(err, 5);
    PortionIsFraction(err, 1);
    assert Spreads(s, width, height, x, y, err, 0) == s;
    PushError(buffer, x + 1 < width, idx + 1, err * 7.0 / 16.0, s, width, height, x, y, err, 1);
    PushError(buffer, x > 0 && y + 1 < height, idx + width - 1, err * 3.0 / 16.0, s, width, height, x, y, err, 2);
    PushError(buffer, y + 1 < height, idx + width, err * 5.0 / 16.0, s, width, height, x, y, err, 3);
    PushError(buffer, x + 1 < width && y + 1 < height, idx + width + 1, err * 1.0 / 16.0, s, width, height, x, y, err, 4);
  }

  /** One guarded line of the diffusion, the one for kernel share k - 1: when
      `cond` holds, cell i receives `amount` on top of what it holds. Run on
      the buffer as the first k - 1 shares left it, it leaves the buffer as
      the first k shares do. */
  method PushError(buffer: array<real>, cond: bool, i: int, amount: real,
                   ghost s: seq<real>, ghost w: nat, ghost h: nat, ghost x: nat, ghost y: nat, ghost err: real, ghost k: nat)
    requires |s| == RowStart(w, h) == buffer.Length && x < w && y < h && 0 < k <= |Kernel|
    requires cond <==> Receives(w, h, x, y, Kernel[k - 1])
    requires cond ==> i == Neighbour(w, h, x, y, Kernel[k - 1])
    requires amount == Portion(err, Kernel[k - 1].sixteenths)
    requires buffer[..] == Spreads(s, w, h, x, y, err, k - 1)
    modifies buffer
    ensures buffer[..] == Spreads(s, w, h, x, y, err, k)
  {
    SpreadsLast(s, w, h, x, y, err, k, cond, i, amount);
    if cond {
      buffer[i] := buffer[i] + amount;
    }
  }

  /** The error-diffusion loop over the luminance buffer, in place, in raster order. */
  method Diffuse(buffer: array<real>, width: nat, height: nat)
    requires buffer.Length == width * height
    modifies buffer
    ensures buffer[..] == Dithered(old(buffer[..]), width, height)
  {
    ghost var s0 := buffer[..];
    RowStartIsProduct(width, height);
    var y := 0;
    while y < height
      invariant 0 <= y <= height
      invariant buffer[..] == Walked(s0, width, height, y, 0)
    {
      var x := 0;
      while x < width
        invariant 0 <= x <= width
        invariant buffer[..] == Walked(s0, width, height, y, x)
      {
        VisitPixel(buffer, width, height, x, y);
        x := x + 1;
      }
      y := y + 1;
    }
  }

  /** Writes each pixel's final luminance into its R, G and B samples; alpha is left alone. */
  method Expand(data: array<real>, buffer: array<real>)
    requires data.Length == 4 * buffer.Length
    requires data != buffer
    modifies data
    ensures forall i :: 0 <= i < data.Length && i % 4 == 3 ==> data[i] == old(data[i])
    ensures forall i :: 0 <= i < data.Length && i % 4 != 3 ==> data[i] == buffer[i / 4]
  {
    var i := 0;
    while i < data.Length
      invariant 0 <= i <= data.Length && i % 4 == 0
      invariant forall j :: 0 <= j < data.Length && j % 4 == 3 ==> data[j] == old(data[j])
      invariant forall j :: 0 <= j < i && j % 4 != 3 ==> data[j] == buffer[j / 4]
      invariant forall j :: i <= j < data.Length ==> data[j] == old(data[j])
    {
      var val := buffer[i / 4];
      data[i + 2] := val;
      data[i + 1] := val;
      data[i] := val;
      i := i + 4;
    }
  }

  /** `ditherMethods.floydSteinberg`: the RGBA buffer of a width x height image
      becomes black and white, R = G = B in every pixel, alpha untouched. */
  method FloydSteinberg(data: array<real>, width: nat, height: nat)
    requires data.Length == 4 * (width * height)
    modifies data
    ensures forall i :: 0 <= i < data.Length && i % 4 == 3 ==> data[i] == old(data[i])
    ensures forall i :: 0 <= i < data.Length && i % 4 != 3 ==>
      data[i] == Dithered(Luminance(old(data[..]), width * height), width, height)[i / 4]
    ensures forall i :: 0 <= i < data.Length && i % 4 != 3 ==> data[i] == 0.0 || data[i] == 255.0
  {
    var buffer := Grayscale(data, width, height);
    ghost var lum := buffer[..];
    Diffuse(buffer, width, height);
    DitheredBinary(lum, width, height);
    Expand(data, buffer);
  }
}

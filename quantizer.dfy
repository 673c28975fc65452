/**
 * The lossy image quantizer (`ImageQuantizer.quantize`).  Every red, green
 * and blue value of an RGBA buffer is rounded to the nearest multiple of a
 * step derived from the quality, and stored into a fresh clamped byte
 * array; alpha values are copied.
 *
 * The floating-point expression `Math.round(v / step) * step` is written
 * with integers: for a value v in 0..255 and a whole step n,
 * `Math.round(v / n)` (half rounds up) is (2v + n) div 2n.
 */
module Quantizer {
  import opened Base

  /** The quality `quantize` uses when it is given none. */
  const DefaultQuality := 50

  /** `Math.max(1, Math.floor(256 / quality))`: a whole number, or Infinity when quality is 0. */
  datatype Step = Finite(n: nat) | Infinite

  function StepOf(quality: int): Step {
    if quality == 0 then Infinite
    else if quality < 0 then Finite(1)
    else
      var d := Quot(256, quality);
      if d < 1 then Finite(1) else Finite(d)
  }

  /** The whole-number quotient a div b, by repeated subtraction. */
  function Quot(a: nat, b: nat): nat
    requires b >= 1
    decreases a
  {
    if a < b then 0 else Quot(a - b, b) + 1
  }

  lemma {:induction false} QuotIsDiv(a: nat, b: nat)
    requires b >= 1
    ensures Quot(a, b) == a / b
    decreases a
  {
    if a >= b {
      QuotIsDiv(a - b, b);
      var q := (a - b) / b;
      assert a - b == b * q + (a - b) % b;
      DivAtLeast(a, b, q + 1);
      DivBelow(a, b, q + 2);
    }
  }

  /** The step is Infinity only for quality 0 and is otherwise at least 1; quality 129 and up gives 1. */
  lemma StepBounds(quality: int)
    ensures StepOf(quality).Infinite? <==> quality == 0
    ensures StepOf(quality).Finite? ==> StepOf(quality).n >= 1
    ensures quality >= 129 ==> StepOf(quality) == Finite(1)
  {
    if quality >= 129 {
      QuotIsDiv(256, quality);
      DivBelow(256, quality, 2);
    }
  }

  /** a div q is below k when a is below k * q. */
  lemma DivBelow(a: nat, q: nat, k: nat)
    requires q >= 1 && a < k * q
    ensures a / q < k
  {
    var d, r := a / q, a % q;
    assert a == q * d + r && 0 <= r < q;
    assert q * d <= a < q * k;
    Cancel(q, d, k);
  }

  /** a div q is at least k when k * q is at most a. */
  lemma DivAtLeast(a: nat, q: nat, k: nat)
    requires q >= 1 && k * q <= a
    ensures k <= a / q
  {
    var d, r := a / q, a % q;
    assert a == q * d + r && 0 <= r < q;
    assert q * k < q * (d + 1);
    Cancel(q, k, d + 1);
  }

  lemma MulMono(a: nat, b: nat, n: nat)
    requires a <= b
    ensures a * n <= b * n
  {
    assert (b - a) * n >= 0;
  }

  /** Products with the same positive factor compare like the other factors. */
  lemma Cancel(q: nat, a: int, b: int)
    requires q >= 1 && q * a < q * b
    ensures a < b
  {
    assert q * (b - a) > 0;
  }

  /** On the quality slider's range 10..100 the step lies in 2..25. */
  lemma SliderSteps(quality: int)
    requires 10 <= quality <= 100
    ensures StepOf(quality).Finite? && 2 <= StepOf(quality).n <= 25
  {
    QuotIsDiv(256, quality);
    DivAtLeast(256, quality, 2);
    DivBelow(256, quality, 26);
  }

  /** A quality the step cannot be taken from. */
  datatype QualityError = NonPositiveQuality

  /**
   * The step for a quality that refuses 0 and negative qualities instead of
   * giving Infinity or 1; a positive quality gets the step `quantize` uses,
   * 256 div quality but at least 1.
   */
  function CheckedStep(quality: int): (r: Result<nat, QualityError>)
    ensures r.Err? <==> quality <= 0
    ensures r.Ok? ==> 1 <= r.value <= 256 && StepOf(quality) == Finite(r.value)
    ensures r.Ok? ==> r.value == if quality <= 256 then 256 / quality else 1
  {
    if quality <= 0 then Err(NonPositiveQuality)
    else
      QuotIsDiv(256, quality);
      DivBelow(256, quality, 257);
      if quality <= 256 then DivAtLeast(256, quality, 1); Ok(Quot(256, quality))
      else DivBelow(256, quality, 1); Ok(1)
  }

  /** `Math.round(v / n)` for whole v >= 0 and n >= 1. */
  function Round(v: nat, n: nat): nat
    requires n >= 1
  {
    (2 * v + n) / (2 * n)
  }

  /** Round gives the nearest whole number to v / n, a half rounding up. */
  lemma RoundFacts(v: nat, n: nat)
    requires n >= 1
    ensures var k := Round(v, n); n * (2 * k - 1) <= 2 * v < n * (2 * k + 1)
  {
    var k, r := (2 * v + n) / (2 * n), (2 * v + n) % (2 * n);
    assert 2 * v + n == 2 * n * k + r && 0 <= r < 2 * n;
  }

  /**
   * The first of the multiples m, m + n, m + 2n, ... that lies less than
   * half a step below v or above it; from 0 this is `Math.round(v / n) * n`.
   */
  function NearestFrom(v: nat, n: nat, m: nat): nat
    requires n >= 1
    decreases 2 * v + n - 2 * m
  {
    if 2 * v < 2 * m + n then m else NearestFrom(v, n, m + n)
  }

  /** Walking the multiples of n from 0 stops at Round(v, n) * n. */
  lemma NearestIsRound(v: nat, n: nat)
    requires n >= 1
    ensures NearestFrom(v, n, 0) == Round(v, n) * n
  {
    NearestFromAt(v, n, 0);
  }

  lemma {:induction false} NearestFromAt(v: nat, n: nat, i: nat)
    requires n >= 1 && i <= Round(v, n)
    ensures NearestFrom(v, n, i * n) == Round(v, n) * n
    decreases Round(v, n) - i
  {
    var k := Round(v, n);
    RoundFacts(v, n);
    if i < k {
      MulMono(2 * i + 1, 2 * k - 1, n);
      assert i * n + n == (i + 1) * n;
      NearestFromAt(v, n, i + 1);
    } else {
      assert 2 * v < 2 * (i * n) + n;
    }
  }

  /**
   * The byte that `quantized.data[i] = Math.round(v / step) * step` stores
   * into the clamped array.  With an infinite step the product is
   * 0 * Infinity = NaN, which the array stores as 0; a product above 255 is
   * clamped to 255.
   */
  function Snap(v: Byte, step: Step): Byte {
    match step
    case Infinite => 0
    case Finite(n) =>
      if n == 0 then 0
      else
        var p := NearestFrom(v, n, 0);
        if p > 255 then 255 else p
  }

  /** A multiple of the step is stored unchanged. */
  lemma SnapFixes(k: nat, n: nat)
    requires n >= 1 && k * n <= 255
    ensures Snap(k * n, Finite(n)) == k * n
  {
    var j: int := Round(k * n, n);
    RoundFacts(k * n, n);
    NearestIsRound(k * n, n);
    assert n * (2 * j - 1) < n * (2 * k + 1);
    Cancel(n, 2 * j - 1, 2 * k + 1);
    assert n * (2 * k) < n * (2 * j + 1);
    Cancel(n, 2 * k, 2 * j + 1);
  }

  /** The stored value is a multiple of the step, unless it was clamped to 255. */
  lemma SnapMultiple(v: Byte, n: nat)
    requires n >= 1
    ensures Snap(v, Finite(n)) % n == 0 || Snap(v, Finite(n)) == 255
  {
    var k := Round(v, n);
    NearestIsRound(v, n);
    MulMod(k, n);
  }

  lemma MulMod(k: nat, n: nat)
    requires n >= 1
    ensures (k * n) % n == 0
  {
    var x := k * n;
    var d, r := x / n, x % n;
    assert x == n * d + r && 0 <= r < n;
    assert n * (k - d) == r;
    Cancel(n, k - d, 1);
    Cancel(n, -1, k - d);
  }

  /** The stored value is within half a step of the original one. */
  lemma SnapClose(v: Byte, n: nat)
    requires n >= 1
    ensures -(n as int) <= 2 * (Snap(v, Finite(n)) - v) <= n
  {
    var k := Round(v, n);
    RoundFacts(v, n);
    NearestIsRound(v, n);
    assert 2 * (k * n) == n * (2 * k - 1) + n;
  }

  /** Quantizing twice is quantizing once. */
  lemma SnapIdempotent(v: Byte, step: Step)
    ensures Snap(Snap(v, step), step) == Snap(v, step)
  {
    match step
    case Infinite =>
    case Finite(n) =>
      if n >= 1 {
        var k := Round(v, n);
        NearestIsRound(v, n);
        if k * n <= 255 {
          SnapFixes(k, n);
        } else {
          var j := Round(255, n);
          NearestIsRound(255, n);
          RoundFacts(v, n);
          RoundFacts(255, n);
          assert n * (2 * k - 1) < n * (2 * j + 1);
          Cancel(n, 2 * k - 1, 2 * j + 1);
          MulMono(k, j, n);
        }
      }
  }

  /** The whole buffer `quantize` produces from `data`: colours snapped, alpha copied. */
  function Quantized(data: seq<Byte>, step: Step): (q: seq<Byte>)
    ensures |q| == |data|
  {
    seq(|data|, i requires 0 <= i < |data| => if i % 4 == 3 then data[i] else Snap(data[i], step))
  }

  /**
   * What `quantize` promises about each entry: alpha is copied, a colour is
   * within half a step of the original (a multiple of the step unless
   * clamped), and a colour that is already a multiple of the step is kept.
   */
  lemma QuantizedFacts(data: seq<Byte>, quality: int, i: nat)
    requires i < |data| && quality != 0
    ensures var q, n := Quantized(data, StepOf(quality)), StepOf(quality).n;
      && n >= 1
      && (i % 4 == 3 ==> q[i] == data[i])
      && (i % 4 != 3 ==> -(n as int) <= 2 * (q[i] - data[i]) <= n)
      && (i % 4 != 3 ==> q[i] % n == 0 || q[i] == 255)
      && (data[i] % n == 0 ==> q[i] == data[i])
  {
    StepBounds(quality);
    var n := StepOf(quality).n;
    SnapClose(data[i], n);
    SnapMultiple(data[i], n);
    if data[i] % n == 0 {
      assert data[i] == data[i] / n * n;
      SnapFixes(data[i] / n, n);
    }
  }

  /** Quality 129 and up, and any negative quality, leave the image as it is. */
  lemma HighQualityIdentity(data: seq<Byte>, quality: int)
    requires quality >= 129 || quality < 0
    ensures Quantized(data, StepOf(quality)) == data
  {
    StepBounds(quality);
    forall i | 0 <= i < |data| ensures Quantized(data, StepOf(quality))[i] == data[i] {
      assert data[i] == data[i] * 1;
      SnapFixes(data[i], 1);
    }
  }

  /** Quality 0 turns every colour black and keeps alpha. */
  lemma ZeroQuality(data: seq<Byte>, i: nat)
    requires i < |data|
    ensures Quantized(data, StepOf(0))[i] == if i % 4 == 3 then data[i] else 0
  {
  }

  /**
   * The default quality 50 gives step 5: the pixel (10, 250, 5, 255) is kept
   * as it is, and a colour 123 becomes 125.
   */
  lemma DefaultQualityExample()
    ensures StepOf(DefaultQuality) == Finite(5)
    ensures Quantized([10, 250, 5, 255], StepOf(DefaultQuality)) == [10, 250, 5, 255]
    ensures Snap(123, StepOf(DefaultQuality)) == 125
  {
    QuotIsDiv(256, 50);
    SnapFixes(2, 5);
    SnapFixes(50, 5);
    SnapFixes(1, 5);
    NearestIsRound(123, 5);
    assert Round(123, 5) == 25;
    var q := Quantized([10, 250, 5, 255], Finite(5));
    assert q[0] == 10 && q[1] == 250 && q[2] == 5 && q[3] == 255;
  }

  /** The pixel count width * height, summed row by row. */
  function Pixels(width: nat, height: nat): nat {
    if height == 0 then 0 else Pixels(width, height - 1) + width
  }

  lemma {:induction false} PixelsIsProduct(width: nat, height: nat)
    ensures Pixels(width, height) == width * height
  {
    if height > 0 {
      PixelsIsProduct(width, height - 1);
    }
  }

  /** An `ImageData`: a width, a height and an RGBA buffer of 4 bytes per pixel. */
  class ImageData {
    const width: nat
    const height: nat
    const data: array<Byte>

    predicate Valid()
      reads this
    {
      data.Length == 4 * Pixels(width, height)
    }

    /** `new ImageData(width, height)`: a transparent black image. */
    constructor(width: nat, height: nat)
      ensures this.width == width && this.height == height && Valid()
      ensures fresh(data) && forall i :: 0 <= i < data.Length ==> data[i] == 0
    {
      this.width := width;
      this.height := height;
      data := new Byte[4 * Pixels(width, height)](_ => 0);
    }
  }

  /** `ImageQuantizer.quantize(imageData, quality)`. */
  method Quantize(image: ImageData, quality: int) returns (quantized: ImageData)
    requires image.Valid()
    ensures fresh(quantized) && fresh(quantized.data) && quantized.Valid()
    ensures quantized.width == image.width && quantized.height == image.height
    ensures quantized.data[..] == Quantized(image.data[..], StepOf(quality))
  {
    quantized := new ImageData(image.width, image.height);
    var step := StepOf(quality);
    ghost var want := Quantized(image.data[..], step);
    ghost var pixels := Pixels(image.width, image.height);
    assert image.data.Length == 4 * pixels;
    var i := 0;
    ghost var j := 0;
    while i < image.data.Length
      invariant i == 4 * j && 0 <= j <= pixels
      invariant forall k :: 0 <= k < i ==> quantized.data[k] == want[k]
      modifies quantized.data
      decreases pixels - j
    {
      quantized.data[i] := Snap(image.data[i], step);
      quantized.data[i + 1] := Snap(image.data[i + 1], step);
      quantized.data[i + 2] := Snap(image.data[i + 2], step);
      quantized.data[i + 3] := image.data[i + 3];
      i, j := i + 4, j + 1;
    }
    assert quantized.data[..] == want;
  }
}

/**
 * The Python port's `ImageQuantizer.quantize` (algorithms_py.py).  It
 * differs from the TypeScript quantizer in three ways: the step is
 * `max(1, 256 // quality)`, so quality 0 raises ZeroDivisionError; Python's
 * `round` sends a half to the even neighbour; and the result is a plain
 * list, so nothing clamps it to 0..255.  The input is a flat list of
 * integers read four at a time, which raises IndexError when its length is
 * not a multiple of 4.  `width` and `height` are accepted and not used.
 */
module PyQuantizer {
  import opened Base
  import Quantizer

  /**
   * The exceptions `quantize` raises, and ValueError for a quality that is
   * not positive, which only the checked quantizer raises.
   */
  datatype Error = ZeroDivisionError | IndexError | ValueError

  /** `max(1, 256 // quality)` for a quality other than 0; `//` rounds towards minus infinity. */
  function StepOf(quality: int): (n: nat)
    requires quality != 0
  {
    if quality < 0 then 1
    else
      var d := Quantizer.Quot(256, quality);
      if d < 1 then 1 else d
  }

  /** On the quality slider's range 10..100 the step lies in 2..25, as in the TypeScript quantizer. */
  lemma StepBounds(quality: int)
    requires quality != 0
    ensures StepOf(quality) >= 1
    ensures quality >= 129 || quality < 0 ==> StepOf(quality) == 1
    ensures 10 <= quality <= 100 ==> 2 <= StepOf(quality) <= 25
    ensures Quantizer.StepOf(quality) == Quantizer.Finite(StepOf(quality))
  {
    Quantizer.StepBounds(quality);
    if 10 <= quality <= 100 {
      Quantizer.SliderSteps(quality);
    }
  }

  /**
   * The floor of v / n and the multiple of n it stands for, found by
   * stepping by n from 0 towards v.
   */
  function FloorDiv(v: int, n: nat): (int, int)
    requires n >= 1
    decreases if v < 0 then n - v else v
  {
    if v < 0 then
      var (q, m) := FloorDiv(v + n, n);
      (q - 1, m - n)
    else if v < n then (0, 0)
    else
      var (q, m) := FloorDiv(v - n, n);
      (q + 1, m + n)
  }

  /** FloorDiv gives a q and the multiple m == q * n with m <= v < m + n. */
  lemma {:induction false} FloorDivFacts(v: int, n: nat)
    requires n >= 1
    ensures var (q, m) := FloorDiv(v, n); m == q * n && m <= v < m + n
    decreases if v < 0 then n - v else v
  {
    if v < 0 {
      FloorDivFacts(v + n, n);
      MulStep(FloorDiv(v, n).0, n);
    } else if v >= n {
      FloorDivFacts(v - n, n);
      MulStep(FloorDiv(v - n, n).0, n);
    }
  }

  /** FloorDiv agrees with division rounding towards minus infinity (Python's `//`). */
  lemma FloorDivIsDiv(v: int, n: nat)
    requires n >= 1
    ensures FloorDiv(v, n) == (v / n, v / n * n)
  {
    FloorDivFacts(v, n);
    var (q, m) := FloorDiv(v, n);
    DivUnique(v, n, q, v - m);
  }

  /** v lies exactly halfway between two multiples of n. */
  predicate Halfway(v: int, n: nat)
    requires n >= 1
  {
    2 * (v - FloorDiv(v, n).1) == n
  }

  /** `round(v / n)`: the whole number nearest v / n, a half going to the even neighbour. */
  function RoundHalfEven(v: int, n: nat): int
    requires n >= 1
  {
    var (q, m) := FloorDiv(v, n);
    var r := v - m;
    if 2 * r < n then q
    else if 2 * r > n then q + 1
    else if q % 2 == 0 then q
    else q + 1
  }

  /**
   * The result k is nearest v / n: n * (2k - 1) <= 2v <= n * (2k + 1),
   * strictly unless v / n is a half, and k is even when it is.
   */
  lemma RoundHalfEvenFacts(v: int, n: nat)
    requires n >= 1
    ensures var k := RoundHalfEven(v, n);
      && n * (2 * k - 1) <= 2 * v <= n * (2 * k + 1)
      && (!Halfway(v, n) ==> n * (2 * k - 1) < 2 * v < n * (2 * k + 1))
      && (Halfway(v, n) ==> k % 2 == 0)
  {
    FloorDivFacts(v, n);
    var q, k := FloorDiv(v, n).0, RoundHalfEven(v, n);
    Distrib(k, n);
    if k != q {
      MulStep(q, n);
    }
  }

  /** The value `round(v / step) * step` that `quantize` appends for a colour. */
  function Snap(v: int, n: nat): int
    requires n >= 1
  {
    var (q, m) := FloorDiv(v, n);
    var r := v - m;
    if 2 * r < n then m
    else if 2 * r > n then m + n
    else if q % 2 == 0 then m
    else m + n
  }

  /** Euclidean division is unique: q and r with a == n * q + r and 0 <= r < n are a / n and a % n. */
  lemma DivUnique(a: int, n: nat, q: int, r: int)
    requires n >= 1 && a == n * q + r && 0 <= r < n
    ensures a / n == q && a % n == r
  {
    var q', r' := a / n, a % n;
    assert a == n * q' + r' && 0 <= r' < n;
    assert n * (q - q') == r' - r;
    Quantizer.Cancel(n, q - q', 1);
    Quantizer.Cancel(n, -1, q - q');
  }

  lemma MulStep(q: int, n: int)
    ensures (q + 1) * n == q * n + n
  {
  }

  lemma Distrib(k: int, n: int)
    ensures n * (2 * k - 1) == 2 * (k * n) - n && n * (2 * k + 1) == 2 * (k * n) + n
  {
  }

  /** Snap is `round(v / n) * n` with the rounding above. */
  lemma SnapIsRound(v: int, n: nat)
    requires n >= 1
    ensures Snap(v, n) == RoundHalfEven(v, n) * n
  {
    FloorDivFacts(v, n);
    MulStep(FloorDiv(v, n).0, n);
  }

  /** The stored colour is within half a step of the original. */
  lemma SnapClose(v: int, n: nat)
    requires n >= 1
    ensures -(n as int) <= 2 * (Snap(v, n) - v) <= n
  {
    FloorDivFacts(v, n);
  }

  /** A multiple of the step is kept. */
  lemma SnapFixes(k: int, n: nat)
    requires n >= 1
    ensures Snap(k * n, n) == k * n
  {
    var j := RoundHalfEven(k * n, n);
    RoundHalfEvenFacts(k * n, n);
    Distrib(k, n);
    Quantizer.Cancel(n, 2 * j - 1, 2 * k + 1);
    Quantizer.Cancel(n, 2 * k - 1, 2 * j + 1);
    SnapIsRound(k * n, n);
  }

  /** With q * n <= v < q * n + n, Snap compares the remainder with half a step and breaks a tie by q's parity. */
  lemma SnapAt(v: int, n: nat, q: int)
    requires n >= 1 && q * n <= v < q * n + n
    ensures var r := v - q * n;
      Snap(v, n) == if 2 * r < n || (2 * r == n && q % 2 == 0) then q * n else q * n + n
  {
    FloorDivFacts(v, n);
    var q' := FloorDiv(v, n).0;
    MulStep(q, n);
    MulStep(q', n);
    Quantizer.Cancel(n, q', q + 1);
    Quantizer.Cancel(n, q, q' + 1);
    assert q' == q;
  }

  /** Nothing clamps: 255 with step 2 is a tie between 254 and 256, and 128 is even, so it becomes 256. */
  lemma NoClamp()
    ensures StepOf(128) == 2 && Snap(255, 2) == 256
  {
    Quantizer.QuotIsDiv(256, 128);
    SnapAt(255, 2, 127);
  }

  /** Halves go to the even neighbour: with step 2, 1 becomes 0 and 3 becomes 4. */
  lemma HalfToEven()
    ensures Snap(1, 2) == 0 && Snap(3, 2) == 4 && Snap(5, 2) == 4
  {
    SnapAt(1, 2, 0);
    SnapAt(3, 2, 1);
    SnapAt(5, 2, 2);
  }

  /** Every entry of the list `quantize` builds: colours snapped, alpha copied. */
  function QuantizedAll(data: seq<int>, n: nat): (q: seq<int>)
    requires n >= 1
    ensures |q| == |data|
  {
    seq(|data|, i requires 0 <= i < |data| => if i % 4 == 3 then data[i] else Snap(data[i], n))
  }

  /** What `quantize` returns, or the exception it raises. */
  function Quantized(data: seq<int>, quality: int): Result<seq<int>, Error> {
    if quality == 0 then Err(ZeroDivisionError)
    else if |data| % 4 != 0 then Err(IndexError)
    else Ok(QuantizedAll(data, StepOf(quality)))
  }

  /**
   * `quantize` fails exactly for quality 0 or a length that is not a multiple
   * of 4; otherwise it keeps the length, copies alpha, moves each colour by at
   * most half a step, and keeps a colour that is a multiple of the step.
   */
  lemma QuantizedFacts(data: seq<int>, quality: int, i: nat)
    requires i < |data|
    ensures Quantized(data, quality).Ok? <==> quality != 0 && |data| % 4 == 0
    ensures Quantized(data, quality).Ok? ==>
      var q, n := Quantized(data, quality).value, StepOf(quality);
      && |q| == |data|
      && (i % 4 == 3 ==> q[i] == data[i])
      && (i % 4 != 3 ==> -(n as int) <= 2 * (q[i] - data[i]) <= n)
      && (data[i] % n == 0 ==> q[i] == data[i])
  {
    if quality != 0 && |data| % 4 == 0 {
      var n := StepOf(quality);
      StepBounds(quality);
      SnapClose(data[i], n);
      if data[i] % n == 0 {
        assert data[i] == data[i] / n * n;
        SnapFixes(data[i] / n, n);
      }
    }
  }

  /** A negative quality gives step 1, so `quantize` returns the list unchanged. */
  lemma NegativeQualityIdentity(data: seq<int>, quality: int)
    requires quality < 0 && |data| % 4 == 0
    ensures Quantized(data, quality) == Ok(data)
  {
    StepBounds(quality);
    var q := QuantizedAll(data, 1);
    forall i | 0 <= i < |data| ensures q[i] == data[i] {
      SnapFixes(data[i], 1);
      assert data[i] * 1 == data[i];
    }
    assert q == data;
  }

  /**
   * `quantize` with the quality checked first: a quality that is not
   * positive raises ValueError; every other call is `quantize`'s own.
   */
  function CheckedQuantized(data: seq<int>, quality: int): (r: Result<seq<int>, Error>)
    ensures quality <= 0 ==> r == Err(ValueError)
    ensures quality > 0 ==> r == Quantized(data, quality)
  {
    match Quantizer.CheckedStep(quality)
    case Err(_) => Err(ValueError)
    case Ok(n) =>
      StepBounds(quality);
      if |data| % 4 != 0 then Err(IndexError) else Ok(QuantizedAll(data, n))
  }

  /**
   * On bytes and the slider's qualities the Python and TypeScript quantizers
   * store the same colour, unless v / step is a half or the Python value
   * exceeds 255.
   */
  lemma AgreesWithClamped(data: seq<Byte>, quality: int, i: nat)
    requires i < |data| && 10 <= quality <= 100 && |data| % 4 == 0
    ensures var py, ts := Quantized(data, quality).value[i], Quantizer.Quantized(data, Quantizer.StepOf(quality))[i];
      py <= 255 && !Halfway(data[i], StepOf(quality)) ==> py == ts
  {
    StepBounds(quality);
    var n := StepOf(quality);
    if i % 4 != 3 {
      var v := data[i];
      RoundHalfEvenFacts(v, n);
      SnapIsRound(v, n);
      Quantizer.RoundFacts(v, n);
      Quantizer.NearestIsRound(v, n);
      if !Halfway(v, n) {
        SameRound(v, n, RoundHalfEven(v, n), Quantizer.Round(v, n));
      }
    }
  }

  /** Two whole numbers both strictly within half of v / n, or one strictly and one up to the half above, are equal. */
  lemma SameRound(v: int, n: nat, k: int, j: int)
    requires n >= 1
    requires n * (2 * k - 1) < 2 * v < n * (2 * k + 1)
    requires n * (2 * j - 1) <= 2 * v < n * (2 * j + 1)
    ensures k == j
  {
    Quantizer.Cancel(n, 2 * k - 1, 2 * j + 1);
    Quantizer.Cancel(n, 2 * j - 1, 2 * k + 1);
  }

  /** `ImageQuantizer.quantize(image_data, width, height, quality)`. */
  method Quantize(imageData: seq<int>, width: int, height: int, quality: int) returns (r: Result<seq<int>, Error>)
    ensures r == Quantized(imageData, quality)
  {
    if quality == 0 {
      return Err(ZeroDivisionError);
    }
    var step := StepOf(quality);
    ghost var want := QuantizedAll(imageData, step);
    var quantized: seq<int> := [];
    var i := 0;
    ghost var j := 0;
    while i < |imageData|
      invariant i == 4 * j && i <= |imageData|
      invariant quantized == want[..i]
      decreases |imageData| - i
    {
      quantized := quantized + [Snap(imageData[i], step)];
      if i + 1 >= |imageData| {
        return Err(IndexError);
      }
      quantized := quantized + [Snap(imageData[i + 1], step)];
      if i + 2 >= |imageData| {
        return Err(IndexError);
      }
      quantized := quantized + [Snap(imageData[i + 2], step)];
      if i + 3 >= |imageData| {
        return Err(IndexError);
      }
      quantized := quantized + [imageData[i + 3]];
      assert quantized == want[..i + 4];
      i, j := i + 4, j + 1;
    }
    assert want[..i] == want;
    return Ok(quantized);
  }
}

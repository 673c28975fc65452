/**
 * Run-length encoding (`RLECompressor`): every maximal run of k equal
 * characters becomes the decimal numeral of k followed by the character,
 * or the bare character when k == 1.  Decoding reads a numeral of any
 * length and repeats the next character that many times.
 *
 * Both directions walk the input by index, as the source does, so the
 * specification functions take the string and a position in it.
 */
module Rle {

  /** The test `/\d/` applies: an ASCII decimal digit. */
  predicate IsDigit(c: char) {
    '0' <= c <= '9'
  }

  predicate NoDigits(s: seq<char>) {
    forall i :: 0 <= i < |s| ==> !IsDigit(s[i])
  }

  predicate AllDigits(s: seq<char>) {
    forall i :: 0 <= i < |s| ==> IsDigit(s[i])
  }

  predicate DigitsIn(s: seq<char>, i: nat, j: nat)
    requires i <= j <= |s|
  {
    forall t :: i <= t < j ==> IsDigit(s[t])
  }

  function DigitChar(d: nat): (c: char)
    requires d < 10
    ensures IsDigit(c)
  {
    ('0' as int + d) as char
  }

  function DigitValue(c: char): (d: nat)
    requires IsDigit(c)
    ensures d < 10 && DigitChar(d) == c
  {
    c as int - '0' as int
  }

  /** Reading back a written digit gives its value. */
  lemma {:induction false} DigitValueOfChar(d: nat)
    requires d < 10
    ensures DigitValue(DigitChar(d)) == d
  {
  }

  /** The template literal `${count}`: the decimal numeral of k. */
  function Decimal(k: nat): seq<char> {
    if k < 10 then [DigitChar(k)] else Decimal(k / 10) + [DigitChar(k % 10)]
  }

  /** A numeral is a non-empty string of digits. */
  lemma {:induction false} DecimalDigits(k: nat)
    ensures Decimal(k) != [] && AllDigits(Decimal(k))
  {
    if k >= 10 {
      DecimalDigits(k / 10);
    }
  }

  /** The value of the decimal digits s[i..j] (leading zeros allowed). */
  function ParseRange(s: seq<char>, i: nat, j: nat): nat
    requires i <= j <= |s| && DigitsIn(s, i, j)
    decreases j - i
  {
    if j == i then 0 else 10 * ParseRange(s, i, j - 1) + DigitValue(s[j - 1])
  }

  /** `parseInt(count)` on a string of decimal digits. */
  function ParseDecimal(s: seq<char>): nat
    requires AllDigits(s)
  {
    ParseRange(s, 0, |s|)
  }

  /** The value of a digit range depends only on the digits in it. */
  lemma {:induction false} ParseRangeShift(s: seq<char>, a: nat, j: nat, t: seq<char>, b: nat, k: nat)
    requires a <= j <= |s| && b <= k <= |t| && j - a == k - b
    requires forall m :: a <= m < j ==> s[m] == t[m - a + b]
    requires DigitsIn(s, a, j)
    ensures DigitsIn(t, b, k)
    ensures ParseRange(s, a, j) == ParseRange(t, b, k)
    decreases j - a
  {
    forall m | b <= m < k ensures IsDigit(t[m]) {
      assert s[m - b + a] == t[m];
    }
    if j > a {
      ParseRangeShift(s, a, j - 1, t, b, k - 1);
      assert s[j - 1] == t[k - 1];
    }
  }

  lemma {:induction false} ParseDecimalOfDecimal(k: nat)
    ensures AllDigits(Decimal(k)) && ParseDecimal(Decimal(k)) == k
  {
    DecimalDigits(k);
    DigitValueOfChar(k % 10);
    if k < 10 {
      assert ParseRange(Decimal(k), 0, 0) == 0;
    } else {
      ParseDecimalOfDecimal(k / 10);
      var r := Decimal(k);
      var p := Decimal(k / 10);
      ParseRangeShift(p, 0, |p|, r, 0, |p|);
    }
  }

  /** A numeral is shorter than the run it counts, once the run has two characters. */
  lemma {:induction false} DecimalShorterThanCount(k: nat)
    requires k >= 2
    ensures |Decimal(k)| < k
  {
    if k >= 20 {
      DecimalShorterThanCount(k / 10);
    }
  }

  /** The end of the run of characters equal to s[i] that starts at position i. */
  function RunEnd(s: seq<char>, i: nat): (j: nat)
    requires i < |s|
    ensures i < j <= |s|
    decreases |s| - i
  {
    if i + 1 < |s| && s[i + 1] == s[i] then RunEnd(s, i + 1) else i + 1
  }

  /** The run is maximal: all its characters equal s[i], and the next one differs. */
  lemma {:induction false} RunEndMaximal(s: seq<char>, i: nat)
    requires i < |s|
    ensures forall t :: i <= t < RunEnd(s, i) ==> s[t] == s[i]
    ensures RunEnd(s, i) == |s| || s[RunEnd(s, i)] != s[i]
    decreases |s| - i
  {
    if i + 1 < |s| && s[i + 1] == s[i] {
      RunEndMaximal(s, i + 1);
    }
  }

  /** The run end is the only position with those two properties. */
  lemma {:induction false} RunEndIs(s: seq<char>, i: nat, j: nat)
    requires i < j <= |s|
    requires forall t :: i <= t < j ==> s[t] == s[i]
    requires j == |s| || s[j] != s[i]
    ensures RunEnd(s, i) == j
    decreases j - i
  {
    if j > i + 1 {
      RunEndIs(s, i + 1, j);
    }
  }

  /** The characters a run of k copies of c is written as. */
  function Token(k: nat, c: char): seq<char> {
    if k > 1 then Decimal(k) + [c] else [c]
  }

  /** The output of `compress` for the input from position i on: one token per maximal run. */
  function EncodeFrom(s: seq<char>, i: nat): seq<char>
    requires i <= |s|
    decreases |s| - i
  {
    if i == |s| then [] else Token(RunEnd(s, i) - i, s[i]) + EncodeFrom(s, RunEnd(s, i))
  }

  function Encode(s: seq<char>): seq<char> {
    EncodeFrom(s, 0)
  }

  /** The first position at or after i that does not hold a decimal digit. */
  function DigitEnd(s: seq<char>, i: nat): (j: nat)
    requires i <= |s|
    ensures i <= j <= |s| && DigitsIn(s, i, j)
    ensures j == |s| || !IsDigit(s[j])
    decreases |s| - i
  {
    if i < |s| && IsDigit(s[i]) then DigitEnd(s, i + 1) else i
  }

  lemma {:induction false} DigitEndIs(s: seq<char>, i: nat, j: nat)
    requires i <= j <= |s| && DigitsIn(s, i, j)
    requires j == |s| || !IsDigit(s[j])
    ensures DigitEnd(s, i) == j
    decreases j - i
  {
    if j > i {
      DigitEndIs(s, i + 1, j);
    }
  }

  /** n copies of c (`c.repeat(n)`). */
  function Repeat(c: char, n: nat): (r: seq<char>)
    ensures |r| == n && forall i :: 0 <= i < n ==> r[i] == c
  {
    seq(n, _ => c)
  }

  /**
   * The output of `decompress` for the input from position i on: a numeral
   * repeats the next character, any other character is copied, and digits at
   * the very end are dropped.
   */
  function DecodeFrom(s: seq<char>, i: nat): seq<char>
    requires i <= |s|
    decreases |s| - i
  {
    var d := DigitEnd(s, i);
    if d == |s| then []
    else if d > i then Repeat(s[d], ParseRange(s, i, d)) + DecodeFrom(s, d + 1)
    else [s[i]] + DecodeFrom(s, i + 1)
  }

  function Decode(s: seq<char>): seq<char> {
    DecodeFrom(s, 0)
  }

  /** `RLECompressor.compress`. */
  method Compress(input: seq<char>) returns (compressed: seq<char>)
    ensures compressed == Encode(input)
  {
    if input == [] {
      return [];
    }
    compressed := [];
    var count: nat := 1;
    ghost var start: nat := 0;
    CompressBegins(input);
    for i := 0 to |input|
      invariant Compressing(input, i, start, count, compressed)
    {
      var repeats := i + 1 < |input| && input[i] == input[i + 1];
      CompressStep(input, i, start, count, compressed, repeats);
      if repeats {
        count := count + 1;
      } else {
        compressed := compressed + Token(count, input[i]);
        count := 1;
        start := i + 1;
      }
    }
    CompressEnds(input, start, count, compressed);
  }

  /**
   * The loop invariant of `compress` after it has looked at input[..i]: the
   * current run started at `start` and is `count` long, it reaches position
   * i, and `compressed` holds the tokens of all earlier runs.
   */
  predicate Compressing(input: seq<char>, i: nat, start: nat, count: nat, compressed: seq<char>) {
    start <= i <= |input| && start + count == i + 1 && 1 <= count
    && (i == |input| ==> count == 1)
    && (i < |input| ==> RunEnd(input, start) > i)
    && compressed + EncodeFrom(input, start) == Encode(input)
  }

  lemma {:induction false} CompressBegins(input: seq<char>)
    requires input != []
    ensures Compressing(input, 0, 0, 1, [])
  {
    assert [] + EncodeFrom(input, 0) == Encode(input);
  }

  /** One round of the loop keeps the invariant. */
  lemma CompressStep(input: seq<char>, i: nat, start: nat, count: nat, compressed: seq<char>, repeats: bool)
    requires Compressing(input, i, start, count, compressed) && i < |input|
    requires repeats == (i + 1 < |input| && input[i] == input[i + 1])
    ensures repeats ==> Compressing(input, i + 1, start, count + 1, compressed)
    ensures !repeats ==> Compressing(input, i + 1, i + 1, 1, compressed + Token(count, input[i]))
  {
    if repeats {
      CompressContinues(input, i, start, count, compressed);
    } else {
      CompressFlushes(input, i, start, count, compressed);
    }
  }

  /** The next character repeats the current one: the run grows. */
  lemma {:induction false} CompressContinues(input: seq<char>, i: nat, start: nat, count: nat, compressed: seq<char>)
    requires Compressing(input, i, start, count, compressed)
    requires i + 1 < |input| && input[i] == input[i + 1]
    ensures Compressing(input, i + 1, start, count + 1, compressed)
  {
    RunContinues(input, start, i);
  }

  /** The next character differs, or there is none: the run's token is written. */
  lemma {:induction false} CompressFlushes(input: seq<char>, i: nat, start: nat, count: nat, compressed: seq<char>)
    requires Compressing(input, i, start, count, compressed) && i < |input|
    requires !(i + 1 < |input| && input[i] == input[i + 1])
    ensures Compressing(input, i + 1, i + 1, 1, compressed + Token(count, input[i]))
  {
    RunStops(input, start, i);
    RunEndMaximal(input, start);
    Resume(compressed, Token(count, input[i]), EncodeFrom(input, start), EncodeFrom(input, i + 1), Encode(input));
  }

  /** After the last character every run has been written. */
  lemma {:induction false} CompressEnds(input: seq<char>, start: nat, count: nat, compressed: seq<char>)
    requires Compressing(input, |input|, start, count, compressed)
    ensures compressed == Encode(input)
  {
    assert compressed + [] == compressed;
  }

  /** Output so far plus the part still to be produced is the whole output. */
  lemma {:induction false} Resume(done: seq<char>, piece: seq<char>, left: seq<char>, rest: seq<char>, whole: seq<char>)
    requires done + left == whole && left == piece + rest
    ensures (done + piece) + rest == whole
  {
  }

  /** A run that reaches position i and sees the same character next reaches i + 1. */
  lemma {:induction false} RunContinues(s: seq<char>, start: nat, i: nat)
    requires start <= i && i + 1 < |s| && RunEnd(s, start) > i && s[i + 1] == s[i]
    ensures RunEnd(s, start) > i + 1
    decreases i - start
  {
    if start < i {
      RunContinues(s, start + 1, i);
    }
  }

  /** A run that reaches position i and sees a different character (or the end) next ends there. */
  lemma {:induction false} RunStops(s: seq<char>, start: nat, i: nat)
    requires start <= i < |s| && RunEnd(s, start) > i
    requires i + 1 == |s| || s[i + 1] != s[i]
    ensures RunEnd(s, start) == i + 1
    decreases i - start
  {
    if start < i {
      RunStops(s, start + 1, i);
    }
  }

  /** `RLECompressor.decompress`. */
  method Decompress(input: seq<char>) returns (decompressed: seq<char>)
    ensures decompressed == Decode(input)
  {
    decompressed := [];
    var i := 0;
    while i < |input|
      invariant 0 <= i <= |input|
      invariant decompressed + DecodeFrom(input, i) == Decode(input)
      decreases |input| - i
    {
      ghost var start := i;
      var count := [];
      while i < |input| && IsDigit(input[i])
        invariant start <= i <= |input|
        invariant |count| == i - start
        invariant AllDigits(count) && DigitsIn(input, start, i)
        invariant ParseDecimal(count) == ParseRange(input, start, i)
      {
        AppendDigit(count, input[i]);
        count := count + [input[i]];
        i := i + 1;
      }
      DecodeAt(input, start, i, decompressed);
      if count != [] && i < |input| {
        decompressed := decompressed + Repeat(input[i], ParseDecimal(count));
        i := i + 1;
      } else if i < |input| {
        decompressed := decompressed + [input[i]];
        i := i + 1;
      }
    }
  }

  /** `count += input[i]` appends a digit to the numeral: its value is ten times the old one plus the digit. */
  lemma {:induction false} AppendDigit(count: seq<char>, c: char)
    requires AllDigits(count) && IsDigit(c)
    ensures AllDigits(count + [c])
    ensures ParseDecimal(count + [c]) == 10 * ParseDecimal(count) + DigitValue(c)
  {
    var t := count + [c];
    ParseRangeShift(count, 0, |count|, t, 0, |count|);
  }

  /** One outer iteration of `decompress`, once the digits input[start..i] are gathered. */
  lemma {:induction false} DecodeAt(input: seq<char>, start: nat, i: nat, done: seq<char>)
    requires start <= i <= |input| && DigitsIn(input, start, i)
    requires i == |input| || !IsDigit(input[i])
    requires done + DecodeFrom(input, start) == Decode(input)
    ensures i == |input| ==> done == Decode(input)
    ensures i < |input| && i > start ==>
      (done + Repeat(input[i], ParseRange(input, start, i))) + DecodeFrom(input, i + 1) == Decode(input)
    ensures i < |input| && i == start ==> (done + [input[i]]) + DecodeFrom(input, i + 1) == Decode(input)
  {
    DigitEndIs(input, start, i);
    if i == |input| {
      assert done + [] == done;
    } else if i > start {
      Resume(done, Repeat(input[i], ParseRange(input, start, i)), DecodeFrom(input, start), DecodeFrom(input, i + 1), Decode(input));
    } else {
      Resume(done, [input[i]], DecodeFrom(input, start), DecodeFrom(input, i + 1), Decode(input));
    }
  }

  /** Compression never makes a string longer. */
  lemma {:induction false} EncodeNoLonger(s: seq<char>, i: nat)
    requires i <= |s|
    ensures |EncodeFrom(s, i)| <= |s| - i
    decreases |s| - i
  {
    if i < |s| {
      var j := RunEnd(s, i);
      if j - i > 1 {
        DecimalShorterThanCount(j - i);
      }
      EncodeNoLonger(s, j);
    }
  }

  /** One step of decoding from position i, once the digits up to d are known. */
  lemma {:induction false} DecodeStep(s: seq<char>, i: nat, d: nat)
    requires i <= d <= |s| && DigitEnd(s, i) == d
    ensures d == |s| ==> DecodeFrom(s, i) == []
    ensures d < |s| && d > i ==> DecodeFrom(s, i) == Repeat(s[d], ParseRange(s, i, d)) + DecodeFrom(s, d + 1)
    ensures d < |s| && d == i ==> DecodeFrom(s, i) == [s[d]] + DecodeFrom(s, d + 1)
  {
  }

  /** The digits after position |p| + i of p + u are the digits after position i of u. */
  lemma {:induction false} DigitEndShift(p: seq<char>, u: seq<char>, i: nat, k: nat)
    requires i <= |u| && k == |p| + i
    ensures DigitEnd(p + u, k) == |p| + DigitEnd(u, i)
  {
    var s := p + u;
    var d := DigitEnd(u, i);
    forall t | k <= t < |p| + d ensures IsDigit(s[t]) {
      assert s[t] == u[t - |p|];
    }
    if d < |u| {
      assert s[|p| + d] == u[d];
    }
    DigitEndIs(s, k, |p| + d);
  }

  /** A digit range of u keeps its value behind a prefix p. */
  lemma {:induction false} ParseRangeAppend(p: seq<char>, u: seq<char>, i: nat, d: nat, k: nat, e: nat)
    requires i <= d <= |u| && DigitsIn(u, i, d) && k == |p| + i && e == |p| + d
    ensures DigitsIn(p + u, k, e) && ParseRange(p + u, k, e) == ParseRange(u, i, d)
  {
    var s := p + u;
    forall m | i <= m < d ensures u[m] == s[m - i + k] {
      assert s[m - i + k] == u[m];
    }
    ParseRangeShift(u, i, d, s, k, e);
  }

  /** Decoding looks only forward: a prefix in front of the position changes nothing. */
  lemma {:induction false} DecodeShift(p: seq<char>, u: seq<char>, i: nat, k: nat)
    requires i <= |u| && k == |p| + i
    ensures DecodeFrom(p + u, k) == DecodeFrom(u, i)
    decreases |u| - i
  {
    var s := p + u;
    var d := DigitEnd(u, i);
    var e := |p| + d;
    DigitEndShift(p, u, i, k);
    if d < |u| {
      assert s[e] == u[d];
      DecodeShift(p, u, d + 1, e + 1);
      if d > i {
        ParseRangeAppend(p, u, i, d, k, e);
      }
    }
    DecodeSameStep(s, k, e, u, i, d);
  }

  /** Two positions whose next decoding steps read the same pieces decode alike. */
  lemma {:induction false} DecodeSameStep(s: seq<char>, k: nat, e: nat, u: seq<char>, i: nat, d: nat)
    requires k <= e <= |s| && DigitEnd(s, k) == e && i <= d <= |u| && DigitEnd(u, i) == d
    requires (e == |s|) == (d == |u|) && (e < |s| ==> (e == k) == (d == i))
    requires e < |s| ==> s[e] == u[d] && DecodeFrom(s, e + 1) == DecodeFrom(u, d + 1)
    requires e < |s| && e > k ==> ParseRange(s, k, e) == ParseRange(u, i, d)
    ensures DecodeFrom(s, k) == DecodeFrom(u, i)
  {
    DecodeStep(s, k, e);
    DecodeStep(u, i, d);
  }

  /** A numeral of any length followed by a non-digit repeats that character. */
  lemma {:induction false} DecodeCountedRun(digits: seq<char>, c: char, rest: seq<char>)
    requires digits != [] && AllDigits(digits) && !IsDigit(c)
    ensures Decode(digits + [c] + rest) == Repeat(c, ParseDecimal(digits)) + Decode(rest)
  {
    var s := digits + [c] + rest;
    var d := |digits|;
    forall t | 0 <= t < d ensures IsDigit(s[t]) {
      assert s[t] == digits[t];
    }
    DigitEndIs(s, 0, d);
    ParseRangeShift(digits, 0, d, s, 0, d);
    DecodeShift(digits + [c], rest, 0, d + 1);
  }

  /** A character without a numeral in front of it is copied once. */
  lemma {:induction false} DecodeBareChar(c: char, rest: seq<char>)
    requires !IsDigit(c)
    ensures Decode([c] + rest) == [c] + Decode(rest)
  {
    DecodeShift([c], rest, 0, 1);
  }

  /** Digits at the very end of the input produce nothing. */
  lemma {:induction false} DecodeDropsTrailingDigits(s: seq<char>, t: seq<char>, i: nat)
    requires AllDigits(t) && i <= |s|
    ensures DecodeFrom(s + t, i) == DecodeFrom(s, i)
    decreases |s| - i
  {
    var st := s + t;
    var d := DigitEnd(s, i);
    var e := if d == |s| then |st| else d;
    DigitEndAppendDigits(s, t, i);
    if d < |s| {
      assert st[d] == s[d];
      DecodeDropsTrailingDigits(s, t, d + 1);
      if d > i {
        ParseRangePrefix(s, t, i, d);
      }
    }
    DecodeSameStep(st, i, e, s, i, d);
  }

  /** Digits appended to s extend a digit range only when it already reaches the end. */
  lemma {:induction false} DigitEndAppendDigits(s: seq<char>, t: seq<char>, i: nat)
    requires AllDigits(t) && i <= |s|
    ensures DigitEnd(s + t, i) == if DigitEnd(s, i) == |s| then |s + t| else DigitEnd(s, i)
  {
    var st := s + t;
    var d := DigitEnd(s, i);
    forall u | i <= u < d ensures IsDigit(st[u]) {
      assert st[u] == s[u];
    }
    if d == |s| {
      forall u | d <= u < |st| ensures IsDigit(st[u]) {
        assert st[u] == t[u - |s|];
      }
      DigitEndIs(st, i, |st|);
    } else {
      assert st[d] == s[d];
      DigitEndIs(st, i, d);
    }
  }

  /** A digit range of s keeps its value when more characters follow. */
  lemma {:induction false} ParseRangePrefix(s: seq<char>, t: seq<char>, i: nat, d: nat)
    requires i <= d <= |s| && DigitsIn(s, i, d)
    ensures DigitsIn(s + t, i, d) && ParseRange(s + t, i, d) == ParseRange(s, i, d)
  {
    var st := s + t;
    forall m | i <= m < d ensures s[m] == st[m - i + i] {
      assert st[m] == s[m];
    }
    ParseRangeShift(s, i, d, st, i, d);
  }

  /** Decoding a token of a non-digit character gives the run back. */
  lemma {:induction false} DecodeToken(k: nat, c: char, rest: seq<char>)
    requires k >= 1 && !IsDigit(c)
    ensures Decode(Token(k, c) + rest) == Repeat(c, k) + Decode(rest)
  {
    if k > 1 {
      DecimalDigits(k);
      DecodeCountedRun(Decimal(k), c, rest);
      ParseDecimalOfDecimal(k);
    } else {
      DecodeBareChar(c, rest);
      assert Repeat(c, 1) == [c];
    }
  }

  /** Round trip: decoding the encoding of a digit-free string gives it back. */
  lemma {:induction false} RoundTripFrom(s: seq<char>, i: nat)
    requires NoDigits(s) && i <= |s|
    ensures Decode(EncodeFrom(s, i)) == s[i..]
    decreases |s| - i
  {
    if i == |s| {
      assert s[i..] == [];
    } else {
      var j := RunEnd(s, i);
      var c := s[i];
      assert !IsDigit(c);
      RoundTripFrom(s, j);
      EncodeStep(s, i);
      DecodeToken(j - i, c, EncodeFrom(s, j));
      RunEndMaximal(s, i);
      assert s[i..] == Repeat(c, j - i) + s[j..];
    }
  }

  lemma {:induction false} RoundTrip(s: seq<char>)
    requires NoDigits(s)
    ensures Decode(Encode(s)) == s
  {
    RoundTripFrom(s, 0);
  }

  /** Encoding unfolded once: the token of the run at i, then the rest. */
  lemma {:induction false} EncodeStep(s: seq<char>, i: nat)
    requires i < |s|
    ensures EncodeFrom(s, i) == Token(RunEnd(s, i) - i, s[i]) + EncodeFrom(s, RunEnd(s, i))
  {
  }

  /** A lone run of 2..9 copies of a character is written as one digit and the character. */
  lemma {:induction false} ShortRun(s: seq<char>)
    requires 2 <= |s| < 10
    requires forall i :: 0 <= i < |s| ==> s[i] == s[0]
    ensures Encode(s) == [DigitChar(|s|), s[0]]
  {
    RunEndIs(s, 0, |s|);
    EncodeStep(s, 0);
    assert Token(|s|, s[0]) == [DigitChar(|s|), s[0]];
  }

  /** The worked example: "aaabbbbcc" compresses to "3a4b2c". */
  lemma {:induction false} Example()
    ensures Encode("aaabbbbcc") == "3a4b2c"
  {
    var s := "aaabbbbcc";
    assert RunEnd(s, 7) == 9;
    assert RunEnd(s, 3) == 7;
    assert RunEnd(s, 0) == 3;
    assert EncodeFrom(s, 9) == [];
    assert EncodeFrom(s, 7) == "2c";
    assert EncodeFrom(s, 3) == "4b2c";
  }

  /** ... and "3a4b2c" decompresses to "aaabbbbcc". */
  lemma {:induction false} ExampleBack()
    ensures Decode("3a4b2c") == "aaabbbbcc"
  {
    var c := "3a4b2c";
    assert DecodeFrom(c, 6) == [];
    assert DigitEnd(c, 4) == 5;
    assert DecodeFrom(c, 4) == "cc";
    assert DigitEnd(c, 2) == 3;
    assert DecodeFrom(c, 2) == "bbbbcc";
    assert DigitEnd(c, 0) == 1;
  }

  /** The demonstration input "aaabbbcccdddd" compresses to "3a3b3c4d". */
  lemma {:induction false} PythonDemo()
    ensures Encode("aaabbbcccdddd") == "3a3b3c4d"
  {
    var s := "aaabbbcccdddd";
    assert RunEnd(s, 9) == 13;
    assert RunEnd(s, 6) == 9;
    assert RunEnd(s, 3) == 6;
    assert RunEnd(s, 0) == 3;
    assert EncodeFrom(s, 13) == [];
    assert EncodeFrom(s, 9) == "4d";
    assert EncodeFrom(s, 6) == "3c4d";
    assert EncodeFrom(s, 3) == "3b3c4d";
  }

  /** ... and "3a3b3c4d" decompresses to "aaabbbcccdddd". */
  lemma {:induction false} PythonDemoBack()
    ensures Decode("3a3b3c4d") == "aaabbbcccdddd"
  {
    var c := "3a3b3c4d";
    PythonDemoBackTail();
    assert DigitEnd(c, 2) == 3;
    assert DecodeFrom(c, 2) == "bbbcccdddd";
    assert DigitEnd(c, 0) == 1;
  }

  /** The last two tokens of "3a3b3c4d" decompress to "cccdddd". */
  lemma {:induction false} PythonDemoBackTail()
    ensures DecodeFrom("3a3b3c4d", 4) == "cccdddd"
  {
    var c := "3a3b3c4d";
    assert DecodeFrom(c, 8) == [];
    assert DigitEnd(c, 6) == 7;
    assert DecodeFrom(c, 6) == "dddd";
    assert DigitEnd(c, 4) == 5;
  }

  /** Counts of ten or more: "12a" decodes to twelve copies of 'a'. */
  lemma {:induction false} MultiDigitExample()
    ensures Decode("12a") == Repeat('a', 12)
  {
    var c := "12a";
    assert DigitEnd(c, 0) == 2;
    assert ParseRange(c, 0, 2) == 12;
    assert DecodeFrom(c, 3) == [];
  }

  /** Trailing digits with no character after them produce nothing: "2a7" decodes to "aa". */
  lemma {:induction false} TrailingDigitsExample()
    ensures Decode("2a7") == "aa"
  {
    var c := "2a7";
    assert DigitEnd(c, 2) == 3;
    assert DecodeFrom(c, 2) == [];
    assert DigitEnd(c, 0) == 1;
  }

  /** The empty string compresses to the empty string. */
  lemma {:induction false} EmptyInput()
    ensures Encode("") == "" && Decode("") == ""
  {
  }
}

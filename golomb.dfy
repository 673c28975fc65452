/**
 * Golomb coding with parameter m = 8 (`GolombCompressor`), over the byte
 * sequence that the UTF-8 encoder produces: byte b becomes b div 8 ones, a
 * zero, and b mod 8 as three binary digits.  Decoding counts ones, skips one
 * character without looking at it, reads the next three characters with
 * `parseInt(_, 2)` and stores the number into a `Uint8Array`.
 *
 * The parameter `m` is fixed at 8 in the source; it is written as the
 * literal 8 throughout, which keeps the arithmetic linear for the verifier.
 */
module Golomb {
  import opened Base

  /** A JavaScript number as it arises here: an integer, or NaN. */
  datatype Number = Int(value: int) | NaN

  /** `'1'.repeat(n)`. */
  function Ones(n: nat): (r: seq<char>)
    ensures |r| == n && forall k :: 0 <= k < n ==> r[k] == '1'
  {
    seq(n, _ => '1')
  }

  function BinDigit(d: nat): char
    requires d < 2
  {
    if d == 0 then '0' else '1'
  }

  /** `n.toString(2)` for a non-negative integer n. */
  function ToBinary(n: nat): (s: seq<char>)
    ensures |s| >= 1
  {
    if n < 2 then [BinDigit(n)] else ToBinary(n / 2) + [BinDigit(n % 2)]
  }

  /** `s.padStart(n, c)` with a one-character filler. */
  function PadStart(s: seq<char>, n: nat, c: char): (r: seq<char>)
    ensures |r| == if |s| >= n then |s| else n
    ensures r[|r| - |s|..] == s
  {
    if |s| >= n then s else seq(n - |s|, _ => c) + s
  }

  /** The remainder field: `r.toString(2).padStart(3, '0')`. */
  function RemainderBits(r: nat): seq<char>
    requires r < 8
  {
    PadStart(ToBinary(r), 3, '0')
  }

  /** The three binary digits of r < 8, most significant first. */
  function Bits3(r: nat): (s: seq<char>)
    requires r < 8
    ensures |s| == 3
  {
    [BinDigit(r / 4), BinDigit(r / 2 % 2), BinDigit(r % 2)]
  }

  /** The codeword that `compress` appends for one byte. */
  function Codeword(b: Byte): seq<char> {
    Ones(b / 8) + ['0'] + Bits3(b % 8)
  }

  /** The codewords of bytes[k..], in order. */
  function EncodeFrom(bytes: seq<Byte>, k: nat): seq<char>
    decreases |bytes| - k
  {
    if k >= |bytes| then [] else Codeword(bytes[k]) + EncodeFrom(bytes, k + 1)
  }

  /** The output of `compress` for a byte sequence. */
  function Encode(bytes: seq<Byte>): seq<char> {
    EncodeFrom(bytes, 0)
  }

  // ---------------------------------------------------------------------------
  // parseInt(_, 2)
  // ---------------------------------------------------------------------------

  /** ECMAScript white space and line terminators, which `parseInt` skips at the front. */
  predicate IsJsSpace(c: char) {
    var x := c as int;
    x == 0x09 || x == 0x0A || x == 0x0B || x == 0x0C || x == 0x0D || x == 0x20
    || x == 0xA0 || x == 0x1680 || (0x2000 <= x <= 0x200A) || x == 0x2028
    || x == 0x2029 || x == 0x202F || x == 0x205F || x == 0x3000 || x == 0xFEFF
  }

  predicate IsBit(c: char) {
    c == '0' || c == '1'
  }

  /** A string made only of '0' and '1'. */
  predicate IsBinary(s: seq<char>) {
    forall k :: 0 <= k < |s| ==> IsBit(s[k])
  }

  /** The first position at or after i that is not white space. */
  function SpaceEnd(s: seq<char>, i: nat): (j: nat)
    requires i <= |s|
    ensures i <= j <= |s|
    decreases |s| - i
  {
    if i < |s| && IsJsSpace(s[i]) then SpaceEnd(s, i + 1) else i
  }

  /** The first position at or after i that is not a binary digit. */
  function BitsEnd(s: seq<char>, i: nat): (j: nat)
    requires i <= |s|
    ensures i <= j <= |s|
    decreases |s| - i
  {
    if i < |s| && IsBit(s[i]) then BitsEnd(s, i + 1) else i
  }

  /** The value of the binary digits s[i..j], most significant first. */
  function BinValue(s: seq<char>, i: nat, j: nat): nat
    requires i <= j <= |s|
    decreases j - i
  {
    if j == i then 0 else 2 * BinValue(s, i, j - 1) + (if s[j - 1] == '1' then 1 else 0)
  }

  /**
   * `parseInt(s, 2)`: skip white space, take an optional sign, then the
   * longest run of binary digits; NaN when that run is empty.
   */
  function ParseInt2(s: seq<char>): Number {
    var a := SpaceEnd(s, 0);
    var negative := a < |s| && s[a] == '-';
    var b := if a < |s| && (s[a] == '-' || s[a] == '+') then a + 1 else a;
    var e := BitsEnd(s, b);
    if e == b then NaN
    else if negative then Int(-(BinValue(s, b, e) as int))
    else Int(BinValue(s, b, e))
  }

  /** `bytes.push(q * this.m + r)`: NaN is absorbing. */
  function Plus(x: int, r: Number): Number {
    match r
    case NaN => NaN
    case Int(v) => Int(x + v)
  }

  /** The conversion a `Uint8Array` applies to each stored number: NaN is 0, then modulo 256. */
  function ToUint8(n: Number): (b: Byte)
    ensures n.Int? && 0 <= n.value < 256 ==> b == n.value
  {
    match n
    case NaN => 0
    case Int(v) => v % 256
  }

  /** `new Uint8Array(bytes)`. */
  function ToUint8Array(ns: seq<Number>): (bs: seq<Byte>)
    ensures |bs| == |ns| && forall k :: 0 <= k < |ns| ==> bs[k] == ToUint8(ns[k])
  {
    seq(|ns|, k requires 0 <= k < |ns| => ToUint8(ns[k]))
  }

  // ---------------------------------------------------------------------------
  // Decoding
  // ---------------------------------------------------------------------------

  /** The first position at or after i that does not hold '1'. */
  function OnesEnd(s: seq<char>, i: nat): (j: nat)
    requires i <= |s|
    ensures i <= j <= |s|
    ensures forall k :: i <= k < j ==> s[k] == '1'
    ensures j == |s| || s[j] != '1'
    decreases |s| - i
  {
    if i < |s| && s[i] == '1' then OnesEnd(s, i + 1) else i
  }

  /** `s.slice(a, b)` for non-negative a and b: both ends are cut back to |s|. */
  function Slice(s: seq<char>, a: nat, b: nat): seq<char>
    decreases if a < b then b - a else 0
  {
    if a < b && a < |s| then [s[a]] + Slice(s, a + 1, b) else []
  }

  /** Within s and before b, position a + k of s is position k of the slice. */
  lemma {:induction false} SliceAt(s: seq<char>, a: nat, b: nat, k: nat)
    requires a + k < b && a + k < |s|
    ensures k < |Slice(s, a, b)| && Slice(s, a, b)[k] == s[a + k]
    decreases k
  {
    if k > 0 {
      SliceAt(s, a + 1, b, k - 1);
    }
  }

  /** A slice that ends within s is b - a long. */
  lemma {:induction false} SliceLength(s: seq<char>, a: nat, b: nat)
    requires a <= b <= |s|
    ensures |Slice(s, a, b)| == b - a
    decreases b - a
  {
    if a < b {
      SliceLength(s, a + 1, b);
    }
  }


  /** What one outer iteration of `decompress` reads: the count of ones and the remainder characters. */
  datatype Field = Field(ones: nat, bits: seq<char>)

  /**
   * The fields `decompress` reads once its index stands at i: count the
   * ones, skip one character, take the next three (fewer at the end), and go
   * on after them.
   */
  function FieldsFrom(s: seq<char>, i: nat): seq<Field>
    decreases |s| - i
  {
    if i >= |s| then [] else [FieldAt(s, i)] + FieldsFrom(s, NextField(s, i))
  }

  /** The field read at i: the ones from i, and the three characters after the '0' that ends them. */
  function FieldAt(s: seq<char>, i: nat): Field
    requires i <= |s|
  {
    var j := OnesEnd(s, i);
    Field(j - i, Slice(s, j + 1, j + 4))
  }

  /** Where reading resumes after the field at i. */
  function NextField(s: seq<char>, i: nat): (n: nat)
    requires i <= |s|
    ensures n > i
  {
    OnesEnd(s, i) + 4
  }

  /** The number pushed for a field: `q * this.m + parseInt(rBits, 2)`. */
  function Value(f: Field): Number {
    Plus(f.ones * 8, ParseInt2(f.bits))
  }

  /** The numbers pushed for a sequence of fields. */
  function Values(fs: seq<Field>): (ns: seq<Number>)
    ensures |ns| == |fs| && forall k :: 0 <= k < |fs| ==> ns[k] == Value(fs[k])
  {
    seq(|fs|, k requires 0 <= k < |fs| => Value(fs[k]))
  }

  /** One more field adds its number at the end. */
  lemma ValuesAppend(fs: seq<Field>, f: Field)
    ensures Values(fs + [f]) == Values(fs) + [Value(f)]
  {
    var gs := fs + [f];
    assert forall k :: 0 <= k < |fs| ==> gs[k] == fs[k];
  }

  /** The bytes `decompress` hands to the UTF-8 decoder. */
  function Decode(s: seq<char>): seq<Byte> {
    ToUint8Array(Values(FieldsFrom(s, 0)))
  }

  // ---------------------------------------------------------------------------
  // The two methods
  // ---------------------------------------------------------------------------

  /** `GolombCompressor.compress`, after `TextEncoder.encode`. */
  method Compress(bytes: seq<Byte>) returns (compressed: seq<char>)
    ensures compressed == Encode(bytes)
  {
    compressed := [];
    for k := 0 to |bytes|
      invariant compressed + EncodeFrom(bytes, k) == Encode(bytes)
    {
      var q := bytes[k] / 8;
      var r := bytes[k] % 8;
      RemainderBitsIs(r);
      Resume(compressed, Ones(q) + ['0'], Bits3(r), EncodeFrom(bytes, k), EncodeFrom(bytes, k + 1), Encode(bytes));
      compressed := compressed + (Ones(q) + ['0']);
      compressed := compressed + PadStart(ToBinary(r), 3, '0');
    }
    assert compressed + [] == compressed;
  }

  /** Output so far, plus the two pieces of the next codeword, plus the rest, is the whole output. */
  lemma {:induction false} Resume(done: seq<char>, p1: seq<char>, p2: seq<char>, left: seq<char>, rest: seq<char>, whole: seq<char>)
    requires done + left == whole && left == (p1 + p2) + rest
    ensures ((done + p1) + p2) + rest == whole
  {
  }

  /** `GolombCompressor.decompress`, before `TextDecoder.decode`. */
  method Decompress(input: seq<char>) returns (output: seq<Byte>)
    ensures output == Decode(input)
  {
    var bytes: seq<Number> := [];
    ghost var fields: seq<Field> := [];
    var i: nat := 0;
    while i < |input|
      invariant fields + FieldsFrom(input, i) == FieldsFrom(input, 0)
      invariant bytes == Values(fields)
      decreases |input| - i
    {
      ghost var start := i;
      var q: nat := 0;
      while i < |input| && input[i] == '1'
        invariant start <= i <= |input| && q == i - start
        invariant forall k :: start <= k < i ==> input[k] == '1'
      {
        q := q + 1;
        i := i + 1;
      }
      i := i + 1;
      var rBits := Slice(input, i, i + 3);
      i := i + 3;
      var r := ParseInt2(rBits);
      DecodeAt(input, start, q, fields);
      ValuesAppend(fields, Field(q, rBits));
      fields := fields + [Field(q, rBits)];
      bytes := bytes + [Plus(q * 8, r)];
    }
    assert fields + [] == fields;
    output := ToUint8Array(bytes);
  }

  /** One outer iteration of `decompress`, once the q ones from `start` are counted. */
  lemma {:induction false} DecodeAt(input: seq<char>, start: nat, q: nat, done: seq<Field>)
    requires start < |input| && start + q <= |input|
    requires forall k :: start <= k < start + q ==> input[k] == '1'
    requires start + q == |input| || input[start + q] != '1'
    requires done + FieldsFrom(input, start) == FieldsFrom(input, 0)
    ensures (done + [Field(q, Slice(input, start + q + 1, start + q + 4))])
            + FieldsFrom(input, start + q + 4) == FieldsFrom(input, 0)
  {
    OnesEndIs(input, start, start + q);
    var f := FieldAt(input, start);
    assert f == Field(q, Slice(input, start + q + 1, start + q + 4));
    assert FieldsFrom(input, start) == [f] + FieldsFrom(input, NextField(input, start));
    ResumeFields(done, [Field(q, Slice(input, start + q + 1, start + q + 4))],
                 FieldsFrom(input, start), FieldsFrom(input, start + q + 4), FieldsFrom(input, 0));
  }

  /** Fields so far plus the fields still to be read are all the fields. */
  lemma {:induction false} ResumeFields(done: seq<Field>, piece: seq<Field>, left: seq<Field>, rest: seq<Field>, whole: seq<Field>)
    requires done + left == whole && left == piece + rest
    ensures (done + piece) + rest == whole
  {
  }

  /** OnesEnd stops exactly at the first character after the ones. */
  lemma {:induction false} OnesEndIs(s: seq<char>, i: nat, j: nat)
    requires i <= j <= |s| && (forall k :: i <= k < j ==> s[k] == '1')
    requires j == |s| || s[j] != '1'
    ensures OnesEnd(s, i) == j
    decreases j - i
  {
    if j > i {
      OnesEndIs(s, i + 1, j);
    }
  }

  /** BitsEnd stops exactly at the first character after the binary digits. */
  lemma {:induction false} BitsEndIs(s: seq<char>, i: nat, j: nat)
    requires i <= j <= |s| && (forall k :: i <= k < j ==> IsBit(s[k]))
    requires j == |s| || !IsBit(s[j])
    ensures BitsEnd(s, i) == j
    decreases j - i
  {
    if j > i {
      BitsEndIs(s, i + 1, j);
    }
  }
  // ---------------------------------------------------------------------------
  // Properties of the code
  // ---------------------------------------------------------------------------

  /** The remainder field spelled out: the three binary digits of r, most significant first. */
  lemma {:induction false} RemainderBitsIs(r: nat)
    requires r < 8
    ensures RemainderBits(r) == Bits3(r)
  {
    if r < 2 {
      assert ToBinary(r) == [BinDigit(r)];
    } else if r < 4 {
      assert ToBinary(r / 2) == [BinDigit(1)];
    } else {
      assert ToBinary(r / 4) == [BinDigit(1)];
      assert ToBinary(r / 2) == [BinDigit(1), BinDigit(r / 2 % 2)];
    }
  }

  /** The three remainder digits are binary and their value is r. */
  lemma {:induction false} RemainderBitsValue(r: nat)
    requires r < 8
    ensures IsBinary(Bits3(r)) && BinValue(Bits3(r), 0, 3) == r
  {
    var s := Bits3(r);
    assert BinValue(s, 0, 0) == 0;
    assert BinValue(s, 0, 1) == r / 4;
    assert BinValue(s, 0, 2) == r / 2;
  }

  /** `parseInt(_, 2)` reads the three remainder digits back as r. */
  lemma {:induction false} ParseRemainder(r: nat)
    requires r < 8
    ensures ParseInt2(Bits3(r)) == Int(r)
  {
    var s := Bits3(r);
    RemainderBitsValue(r);
    assert !IsJsSpace(s[0]) && SpaceEnd(s, 0) == 0;
    BitsEndIs(s, 0, 3);
  }

  /** Byte b is b div 8 ones, then '0', then the three remainder digits. */
  lemma {:induction false} CodewordParts(b: Byte)
    ensures |Codeword(b)| == b / 8 + 4
    ensures forall k :: 0 <= k < b / 8 ==> Codeword(b)[k] == '1'
    ensures Codeword(b)[b / 8] == '0'
    ensures forall k :: 0 <= k < 3 ==> Codeword(b)[b / 8 + 1 + k] == Bits3(b % 8)[k]
  {
  }

  /** A codeword holds only '0' and '1'. */
  lemma {:induction false} CodewordIsBinary(b: Byte)
    ensures IsBinary(Codeword(b))
  {
    var q := b / 8;
    RemainderBitsValue(b % 8);
    BinaryAppend(Ones(q), ['0']);
    BinaryAppend(Ones(q) + ['0'], Bits3(b % 8));
  }

  /** Byte 0 compresses to "0000"; byte 255 to 31 ones followed by "0111". */
  lemma {:induction false} CodewordExamples()
    ensures Encode([0]) == "0000"
    ensures Encode([255]) == Ones(31) + "0111"
  {
    assert EncodeFrom([0], 1) == [] && EncodeFrom([255], 1) == [];
    assert Ones(0) == [];
  }

  /** The codewords of b, read inside a + b past a, are those of b alone. */
  lemma {:induction false} EncodeFromShift(a: seq<Byte>, b: seq<Byte>, j: nat)
    ensures EncodeFrom(a + b, |a| + j) == EncodeFrom(b, j)
    decreases |b| - j
  {
    if j < |b| {
      assert (a + b)[|a| + j] == b[j];
      EncodeFromShift(a, b, j + 1);
    }
  }

  /** Encoding (a + b) from position k of a is encoding a from k, then all of b. */
  lemma {:induction false} EncodeFromAppend(a: seq<Byte>, b: seq<Byte>, k: nat)
    requires k <= |a|
    ensures EncodeFrom(a + b, k) == EncodeFrom(a, k) + Encode(b)
    decreases |a| - k
  {
    if k == |a| {
      EncodeFromShift(a, b, 0);
      assert EncodeFrom(a, k) + Encode(b) == Encode(b);
    } else {
      assert (a + b)[k] == a[k];
      EncodeFromAppend(a, b, k + 1);
      var c := Codeword(a[k]);
      assert c + (EncodeFrom(a, k + 1) + Encode(b)) == (c + EncodeFrom(a, k + 1)) + Encode(b);
    }
  }

  /** Encoding is a homomorphism: concatenation to concatenation, and the empty sequence to "". */
  lemma {:induction false} EncodeAppend(a: seq<Byte>, b: seq<Byte>)
    ensures Encode(a + b) == Encode(a) + Encode(b)
    ensures Encode([]) == []
  {
    EncodeFromAppend(a, b, 0);
  }

  /** The output of `compress` holds only '0' and '1'. */
  lemma {:induction false} EncodeIsBinary(bytes: seq<Byte>, k: nat)
    ensures IsBinary(EncodeFrom(bytes, k))
    decreases |bytes| - k
  {
    if k < |bytes| {
      CodewordIsBinary(bytes[k]);
      EncodeIsBinary(bytes, k + 1);
      BinaryAppend(Codeword(bytes[k]), EncodeFrom(bytes, k + 1));
    }
  }

  lemma {:induction false} BinaryAppend(s: seq<char>, t: seq<char>)
    requires IsBinary(s) && IsBinary(t)
    ensures IsBinary(s + t)
  {
    forall k | 0 <= k < |s + t| ensures IsBit((s + t)[k]) {
      if k >= |s| {
        assert (s + t)[k] == t[k - |s|];
      } else {
        assert (s + t)[k] == s[k];
      }
    }
  }

  // ---------------------------------------------------------------------------
  // Properties of decoding
  // ---------------------------------------------------------------------------

  /** Each field takes at least four characters: at most ceil((|s| - i) / 4) of them. */
  lemma {:induction false} FieldsCount(s: seq<char>, i: nat)
    requires i <= |s|
    ensures 4 * |FieldsFrom(s, i)| <= |s| - i + 3
    decreases |s| - i
  {
    if i < |s| {
      var n := NextField(s, i);
      assert n >= i + 4;
      assert |FieldsFrom(s, i)| == 1 + |FieldsFrom(s, n)|;
      if n <= |s| {
        FieldsCount(s, n);
      } else {
        assert FieldsFrom(s, n) == [];
      }
    }
  }

  /** `decompress` yields at most one byte per four input characters, rounded up. */
  lemma {:induction false} DecodeLength(s: seq<char>)
    ensures 4 * |Decode(s)| <= |s| + 3
  {
    FieldsCount(s, 0);
  }

  /** Decoding from i reads nothing before i: two inputs that agree from i on give the same fields from there. */
  lemma {:induction false} FieldsAgree(s: seq<char>, t: seq<char>, i: nat)
    requires |s| == |t| && forall k :: i <= k < |s| ==> s[k] == t[k]
    ensures FieldsFrom(s, i) == FieldsFrom(t, i)
    decreases |s| - i
  {
    if i < |s| {
      HeadAgree(s, t, i, OnesEnd(s, i));
      var n := NextField(s, i);
      assert FieldAt(s, i) == FieldAt(t, i) && n == NextField(t, i);
      FieldsAgree(s, t, n);
    }
  }

  /** Two inputs that agree from i on have the same ones count and remainder characters at i. */
  lemma {:induction false} HeadAgree(s: seq<char>, t: seq<char>, i: nat, j: nat)
    requires |s| == |t| && forall k :: i <= k < |s| ==> s[k] == t[k]
    requires i < |s| && j == OnesEnd(s, i)
    ensures OnesEnd(t, i) == j && Slice(s, j + 1, j + 4) == Slice(t, j + 1, j + 4)
  {
    OnesEndIs(t, i, j);
    SliceAgree(s, t, i, j + 1, j + 4);
  }

  lemma {:induction false} SliceAgree(s: seq<char>, t: seq<char>, i: nat, a: nat, b: nat)
    requires |s| == |t| && forall k :: i <= k < |s| ==> s[k] == t[k]
    requires i <= a
    ensures Slice(s, a, b) == Slice(t, a, b)
    decreases if a < b then b - a else 0
  {
    if a < b && a < |s| {
      SliceAgree(s, t, i, a + 1, b);
    }
  }

  /**
   * The character after the first run of ones is skipped unread (the source
   * assumes it is the terminating '0'): any character other than '1' there
   * decodes alike.
   */
  lemma {:induction false} TerminatorUnchecked(s: seq<char>, t: seq<char>, j: nat)
    requires |s| == |t| && j < |s| && forall k :: 0 <= k < |s| && k != j ==> s[k] == t[k]
    requires OnesEnd(s, 0) == j && t[j] != '1'
    ensures Decode(s) == Decode(t)
  {
    OnesEndIs(t, 0, j);
    SliceAgree(s, t, j + 1, j + 1, j + 4);
    FieldsAgree(s, t, j + 4);
    assert FieldsFrom(s, 0) == FieldsFrom(t, 0);
  }

  /** In a codeword placed at position i of s, the ones and the remainder digits sit where `decompress` reads them. */
  lemma {:induction false} CodewordFieldsAt(s: seq<char>, i: nat, b: Byte)
    requires i + b / 8 + 4 <= |s|
    requires forall k :: 0 <= k < b / 8 + 4 ==> s[i + k] == Codeword(b)[k]
    ensures OnesEnd(s, i) == i + b / 8
    ensures Slice(s, i + b / 8 + 1, i + b / 8 + 4) == Bits3(b % 8)
  {
    CodewordParts(b);
    CodewordOnesAt(s, i, Codeword(b), b / 8);
    CodewordRemainderAt(s, i + b / 8 + 1, Bits3(b % 8));
  }

  /** q ones and a '0' placed at position i of s end the run of ones at i + q. */
  lemma {:induction false} CodewordOnesAt(s: seq<char>, i: nat, c: seq<char>, q: nat)
    requires q < |c| && i + q < |s|
    requires forall k :: 0 <= k < |c| && i + k < |s| ==> s[i + k] == c[k]
    requires (forall k :: 0 <= k < q ==> c[k] == '1') && c[q] == '0'
    ensures OnesEnd(s, i) == i + q
  {
    forall k | i <= k < i + q ensures s[k] == '1' {
      assert s[i + (k - i)] == c[k - i];
    }
    assert s[i + q] == c[q];
    OnesEndIs(s, i, i + q);
  }

  /** Three characters placed at position a of s are the slice from a to a + 3. */
  lemma {:induction false} CodewordRemainderAt(s: seq<char>, a: nat, t: seq<char>)
    requires |t| == 3 && a + 3 <= |s|
    requires forall k :: 0 <= k < 3 ==> s[a + k] == t[k]
    ensures Slice(s, a, a + 3) == t
  {
    var u := Slice(s, a, a + 3);
    SliceLength(s, a, a + 3);
    forall k | 0 <= k < 3 ensures u[k] == t[k] {
      SliceAt(s, a, a + 3, k);
    }
  }

  /** The field `decompress` reads for byte b: b div 8 ones and the three remainder digits. */
  function FieldOf(b: Byte): Field {
    Field(b / 8, Bits3(b % 8))
  }

  /** A codeword placed at position i of s is read as its field, and reading goes on right after it. */
  lemma {:induction false} CodewordAt(s: seq<char>, i: nat, b: Byte)
    requires i + b / 8 + 4 <= |s|
    requires forall k :: 0 <= k < b / 8 + 4 ==> s[i + k] == Codeword(b)[k]
    ensures FieldsFrom(s, i) == [FieldOf(b)] + FieldsFrom(s, i + b / 8 + 4)
  {
    CodewordFieldsAt(s, i, b);
  }

  /** The fields of bytes[k..], in order. */
  function FieldsOf(bytes: seq<Byte>, k: nat): (fs: seq<Field>)
    ensures |fs| == if k < |bytes| then |bytes| - k else 0
    ensures forall j :: 0 <= j < |fs| ==> fs[j] == FieldOf(bytes[k + j])
    decreases |bytes| - k
  {
    if k >= |bytes| then [] else [FieldOf(bytes[k])] + FieldsOf(bytes, k + 1)
  }

  /** Where EncodeFrom(bytes, k) makes up the end of s from position i on, the fields read from i are those of bytes[k..]. */
  lemma {:induction false} FieldsOfEncode(s: seq<char>, i: nat, bytes: seq<Byte>, k: nat)
    requires i + |EncodeFrom(bytes, k)| == |s|
    requires forall j :: 0 <= j < |EncodeFrom(bytes, k)| ==> s[i + j] == EncodeFrom(bytes, k)[j]
    ensures FieldsFrom(s, i) == FieldsOf(bytes, k)
    decreases |bytes| - k
  {
    if k < |bytes| {
      var b := bytes[k];
      var c := Codeword(b);
      var e, rest := EncodeFrom(bytes, k), EncodeFrom(bytes, k + 1);
      assert e == c + rest;
      SplitAt(s, i, e, c, rest);
      CodewordParts(b);
      CodewordAt(s, i, b);
      FieldsOfEncode(s, i + |c|, bytes, k + 1);
    }
  }

  /** Where e == c + rest lies in s from position i on, c lies at i and rest right after it. */
  lemma SplitAt(s: seq<char>, i: nat, e: seq<char>, c: seq<char>, rest: seq<char>)
    requires e == c + rest && i + |e| == |s|
    requires forall j :: 0 <= j < |e| ==> s[i + j] == e[j]
    ensures forall j :: 0 <= j < |c| ==> s[i + j] == c[j]
    ensures i + |c| + |rest| == |s|
    ensures forall j :: 0 <= j < |rest| ==> s[i + |c| + j] == rest[j]
  {
    forall j | 0 <= j < |c| ensures s[i + j] == c[j] {
      assert e[j] == c[j];
    }
    forall j | 0 <= j < |rest| ensures s[i + |c| + j] == rest[j] {
      assert s[i + (|c| + j)] == e[|c| + j];
    }
  }

  /** The field of byte b has value b. */
  lemma {:induction false} FieldValue(b: Byte)
    ensures Value(FieldOf(b)) == Int(b)
  {
    ParseRemainder(b % 8);
  }

  /** Round trip at byte level: decoding the encoding gives the bytes back. */
  lemma {:induction false} RoundTrip(bytes: seq<Byte>)
    ensures Decode(Encode(bytes)) == bytes
  {
    FieldsOfEncode(Encode(bytes), 0, bytes, 0);
    var out := Decode(Encode(bytes));
    forall j | 0 <= j < |bytes| ensures out[j] == bytes[j] {
      FieldValue(bytes[j]);
    }
  }

  /** A stream cut short after the ones has no remainder digits left: parseInt gives NaN and the byte is 0. */
  lemma {:induction false} TruncatedExample()
    ensures Decode("110") == [0]
  {
    var s := "110";
    OnesEndIs(s, 0, 2);
    assert Slice(s, 3, 6) == [];
    assert FieldsFrom(s, 0) == [Field(2, [])];
  }

  /** parseInt accepts a sign: "0-1" decodes to 0 * 8 - 1, which the Uint8Array stores as 255. */
  lemma {:induction false} SignedRemainderExample()
    ensures Decode("0-1") == [255]
  {
    var s := "0-1";
    OnesEndIs(s, 0, 0);
    var t := Slice(s, 1, 4);
    assert t == "-1";
    assert FieldsFrom(s, 0) == [Field(0, t)];
    assert SpaceEnd(t, 0) == 0;
    BitsEndIs(t, 1, 2);
    assert BinValue(t, 1, 1) == 0;
    assert ParseInt2(t) == Int(-1);
  }

  // ---------------------------------------------------------------------------
  // A decoder that refuses a cut-short field
  // ---------------------------------------------------------------------------

  /** A field whose remainder is missing digits. */
  datatype DecodeError = Truncated

  /** Every field has all three remainder digits. */
  predicate Complete(fs: seq<Field>) {
    forall k :: 0 <= k < |fs| ==> |fs[k].bits| == 3
  }

  /** A field in front keeps the fields complete exactly when it is complete itself. */
  lemma CompleteCons(f: Field, fs: seq<Field>)
    ensures Complete([f] + fs) <==> |f.bits| == 3 && Complete(fs)
  {
    if Complete([f] + fs) {
      assert ([f] + fs)[0] == f;
      forall k | 0 <= k < |fs| ensures |fs[k].bits| == 3 {
        assert ([f] + fs)[k + 1] == fs[k];
      }
    }
  }

  /**
   * The bytes read from position i on, reading fields as `decompress` does,
   * but refusing a field without three characters after its terminator (the
   * slice never holds more); otherwise the same bytes.
   */
  function CheckedFrom(s: seq<char>, i: nat): (r: Result<seq<Byte>, DecodeError>)
    ensures r.Ok? <==> Complete(FieldsFrom(s, i))
    ensures r.Ok? ==> r.value == ToUint8Array(Values(FieldsFrom(s, i)))
    decreases |s| - i
  {
    if i >= |s| then Ok([])
    else
      var f := FieldAt(s, i);
      CompleteCons(f, FieldsFrom(s, NextField(s, i)));
      if |f.bits| != 3 then Err(Truncated)
      else
        match CheckedFrom(s, NextField(s, i))
        case Err(e) => Err(e)
        case Ok(rest) => Ok([ToUint8(Value(f))] + rest)
  }

  function CheckedDecode(s: seq<char>): Result<seq<Byte>, DecodeError> {
    CheckedFrom(s, 0)
  }

  /** The checked decoder reads back every encoding, like the unchecked one. */
  lemma {:induction false} CheckedRoundTrip(bytes: seq<Byte>)
    ensures CheckedDecode(Encode(bytes)) == Ok(bytes)
  {
    var s := Encode(bytes);
    var fs := FieldsFrom(s, 0);
    FieldsOfEncode(s, 0, bytes, 0);
    assert Complete(fs) by {
      forall k | 0 <= k < |fs| ensures |fs[k].bits| == 3 {
        assert fs[k] == FieldOf(bytes[k]);
      }
    }
    RoundTrip(bytes);
    assert CheckedFrom(s, 0).value == Decode(s);
  }

  /** The stream cut short after its ones, which `decompress` reads as byte 0, is refused. */
  lemma {:induction false} CheckedTruncatedExample()
    ensures CheckedDecode("110") == Err(Truncated)
  {
    var s := "110";
    OnesEndIs(s, 0, 2);
    assert Slice(s, 3, 6) == [];
    assert FieldsFrom(s, 0)[0] == Field(2, []);
  }
}

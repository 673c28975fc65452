/**
 * The Python port's `GolombCompressor.decompress` (algorithms_py.py).  It
 * reads the same fields as the TypeScript decoder, but parses each
 * remainder with `int(r_bits, 2)`, which raises ValueError on text that is
 * not a binary literal (for instance the empty slice at the end of a cut
 * stream), and hands the numbers to `bytes(...)`, which raises ValueError
 * for one outside 0..255 instead of wrapping it.  Python's `compress`
 * produces the same string as the TypeScript one (`format(r, '03b')` is the
 * three-digit remainder), so `Golomb.Compress` models both.
 */
module PyGolomb {
  import opened Base
  import Golomb

  /** The two ValueErrors `decompress` can raise before UTF-8 decoding: from `int` and from `bytes`. */
  datatype Error = InvalidLiteral | ByteOutOfRange

  // ---------------------------------------------------------------------------
  // int(s, 2)
  // ---------------------------------------------------------------------------

  /**
   * The characters `int` strips around a literal, those of `str.isspace`:
   * tab, line feed, vertical tab, form feed, carriage return, the four
   * separators U+001C..U+001F, space, and the non-ASCII white space.
   */
  predicate IsPySpace(c: char) {
    var x := c as int;
    (0x09 <= x <= 0x0D) || (0x1C <= x <= 0x20)
    || x == 0x85 || x == 0xA0 || x == 0x1680 || (0x2000 <= x <= 0x200A)
    || x == 0x2028 || x == 0x2029 || x == 0x202F || x == 0x205F || x == 0x3000
  }

  /** The first position at or after i that is not white space. */
  function SpaceEnd(s: seq<char>, i: nat): (j: nat)
    requires i <= |s|
    ensures i <= j <= |s|
    decreases |s| - i
  {
    if i < |s| && IsPySpace(s[i]) then SpaceEnd(s, i + 1) else i
  }

  /** The position after the last character of s[..j] that is not white space, but at least a. */
  function SpaceStart(s: seq<char>, a: nat, j: nat): (z: nat)
    requires a <= j <= |s|
    ensures a <= z <= j
    decreases j
  {
    if j > a && IsPySpace(s[j - 1]) then SpaceStart(s, a, j - 1) else j
  }

  /** Where the digits may begin once an optional sign at a is passed. */
  function SignEnd(s: seq<char>, a: nat, z: nat): (b: nat)
    requires a <= z <= |s|
    ensures a <= b <= z
  {
    if a < z && (s[a] == '-' || s[a] == '+') then a + 1 else a
  }

  /** Past an optional `0b` or `0B` prefix at b, which may be followed by one underscore. */
  function PrefixEnd(s: seq<char>, b: nat, z: nat): (p: nat)
    requires b <= z <= |s|
    ensures b <= p <= z
  {
    if b + 1 < z && s[b] == '0' && (s[b + 1] == 'b' || s[b + 1] == 'B') then
      if b + 2 < z && s[b + 2] == '_' then b + 3 else b + 2
    else b
  }

  /**
   * s[p..z] is a group of binary digits: it starts with a digit, and an
   * underscore may stand only directly before a digit.
   */
  predicate DigitGroup(s: seq<char>, p: nat, z: nat)
    requires p <= z <= |s|
  {
    && p < z && Golomb.IsBit(s[p])
    && forall k :: p <= k < z ==> Golomb.IsBit(s[k]) || (s[k] == '_' && k + 1 < z && Golomb.IsBit(s[k + 1]))
  }

  /** The value of the binary digits in s[p..j], most significant first, underscores skipped. */
  function DigitsValue(s: seq<char>, p: nat, j: nat): nat
    requires p <= j <= |s|
    decreases j - p
  {
    if j == p then 0
    else if s[j - 1] == '_' then DigitsValue(s, p, j - 1)
    else 2 * DigitsValue(s, p, j - 1) + (if s[j - 1] == '1' then 1 else 0)
  }

  /**
   * `int(s, 2)`: strip white space at both ends, take an optional sign and an
   * optional `0b` prefix, then a digit group that must run to the end;
   * anything else raises ValueError.
   */
  function PyInt2(s: seq<char>): Result<int, Error> {
    var a := SpaceEnd(s, 0);
    var z := SpaceStart(s, a, |s|);
    var b := SignEnd(s, a, z);
    var p := PrefixEnd(s, b, z);
    if !DigitGroup(s, p, z) then Err(InvalidLiteral)
    else if b > a && s[a] == '-' then Ok(-(DigitsValue(s, p, z) as int))
    else Ok(DigitsValue(s, p, z))
  }

  /** On binary digits alone the underscore-skipping value is the plain binary value. */
  lemma {:induction false} DigitsValueBinary(s: seq<char>, p: nat, j: nat)
    requires p <= j <= |s| && forall k :: p <= k < j ==> Golomb.IsBit(s[k])
    ensures DigitsValue(s, p, j) == Golomb.BinValue(s, p, j)
    decreases j - p
  {
    if j > p {
      DigitsValueBinary(s, p, j - 1);
    }
  }

  /** A non-empty string of binary digits is read by `int(_, 2)` as its binary value. */
  lemma ParseBinary(s: seq<char>)
    requires |s| > 0 && Golomb.IsBinary(s)
    ensures PyInt2(s) == Ok(Golomb.BinValue(s, 0, |s|))
  {
    assert Golomb.IsBit(s[0]) && Golomb.IsBit(s[|s| - 1]);
    assert SpaceEnd(s, 0) == 0;
    assert SpaceStart(s, 0, |s|) == |s|;
    assert |s| > 1 ==> Golomb.IsBit(s[1]);
    assert PrefixEnd(s, 0, |s|) == 0;
    DigitsValueBinary(s, 0, |s|);
  }

  /** `int` refuses the empty string. */
  lemma EmptyRefused(s: seq<char>)
    ensures PyInt2(s).Ok? ==> |s| > 0
  {
  }

  /** `int(_, 2)` reads the three remainder digits that `compress` writes back as r. */
  lemma ParseRemainder(r: nat)
    requires r < 8
    ensures PyInt2(Golomb.Bits3(r)) == Ok(r)
  {
    Golomb.RemainderBitsValue(r);
    ParseBinary(Golomb.Bits3(r));
  }

  /** The prefix, underscores and a sign after white space are accepted; a doubled underscore is not. */
  lemma LiteralExamples()
    ensures PyInt2("0b1") == Ok(1)
    ensures PyInt2("1_0") == Ok(2)
    ensures PyInt2(" -1") == Ok(-1)
    ensures PyInt2("") == Err(InvalidLiteral)
    ensures PyInt2("1__0") == Err(InvalidLiteral)
    ensures PyInt2("0b") == Err(InvalidLiteral)
  {
    var s1 := "0b1";
    assert SpaceEnd(s1, 0) == 0 && SpaceStart(s1, 0, 3) == 3 && PrefixEnd(s1, 0, 3) == 2;
    assert DigitsValue(s1, 2, 2) == 0;
    var s2 := "1_0";
    assert SpaceEnd(s2, 0) == 0 && SpaceStart(s2, 0, 3) == 3 && PrefixEnd(s2, 0, 3) == 0;
    assert DigitsValue(s2, 0, 0) == 0 && DigitsValue(s2, 0, 1) == 1 && DigitsValue(s2, 0, 2) == 1;
    assert DigitGroup(s2, 0, 3);
    var s3 := " -1";
    assert SpaceEnd(s3, 1) == 1 && SpaceStart(s3, 1, 3) == 3 && PrefixEnd(s3, 2, 3) == 2;
    assert DigitsValue(s3, 2, 2) == 0;
    var s4 := "1__0";
    assert SpaceEnd(s4, 0) == 0 && SpaceStart(s4, 0, 4) == 4 && PrefixEnd(s4, 0, 4) == 0;
    assert !Golomb.IsBit(s4[1]) && !Golomb.IsBit(s4[2]);
    var s5 := "0b";
    assert SpaceEnd(s5, 0) == 0 && SpaceStart(s5, 0, 2) == 2 && PrefixEnd(s5, 0, 2) == 2;
  }

  // ---------------------------------------------------------------------------
  // Decoding
  // ---------------------------------------------------------------------------

  /** The number appended for a field, `q * self.m + int(r_bits, 2)`, or the ValueError of `int`. */
  function FieldValue(f: Golomb.Field): Result<int, Error> {
    match PyInt2(f.bits)
    case Err(e) => Err(e)
    case Ok(r) => Ok(f.ones * 8 + r)
  }

  predicate AllParse(fs: seq<Golomb.Field>) {
    forall k :: 0 <= k < |fs| ==> FieldValue(fs[k]).Ok?
  }

  function ValuesOf(fs: seq<Golomb.Field>): (vs: seq<int>)
    requires AllParse(fs)
    ensures |vs| == |fs| && forall k :: 0 <= k < |fs| ==> Ok(vs[k]) == FieldValue(fs[k])
  {
    seq(|fs|, k requires 0 <= k < |fs| => FieldValue(fs[k]).value)
  }

  /** The list `bytes_list` the loop builds, or the first field's ValueError. */
  function Values(fs: seq<Golomb.Field>): Result<seq<int>, Error> {
    if AllParse(fs) then Ok(ValuesOf(fs)) else Err(InvalidLiteral)
  }

  /** `bytes(values)`: every value must lie in 0..255. */
  function ToBytes(vs: seq<int>): (r: Result<seq<Byte>, Error>)
    ensures r.Ok? <==> forall k :: 0 <= k < |vs| ==> 0 <= vs[k] < 256
    ensures r.Ok? ==> |r.value| == |vs| && forall k :: 0 <= k < |vs| ==> r.value[k] == vs[k]
  {
    if forall k :: 0 <= k < |vs| ==> 0 <= vs[k] < 256 then
      Ok(seq(|vs|, k requires 0 <= k < |vs| && 0 <= vs[k] < 256 => vs[k] as Byte))
    else Err(ByteOutOfRange)
  }

  /** The bytes `decompress` hands to the UTF-8 decoder, or the ValueError it raises first. */
  function Decode(s: seq<char>): Result<seq<Byte>, Error> {
    match Values(Golomb.FieldsFrom(s, 0))
    case Err(e) => Err(e)
    case Ok(vs) => ToBytes(vs)
  }

  /** `GolombCompressor.decompress` in Python, before `.decode('utf-8')`. */
  method Decompress(input: seq<char>) returns (output: Result<seq<Byte>, Error>)
    ensures output == Decode(input)
  {
    var bytesList: seq<int> := [];
    ghost var fields: seq<Golomb.Field> := [];
    var i: nat := 0;
    while i < |input|
      invariant fields + Golomb.FieldsFrom(input, i) == Golomb.FieldsFrom(input, 0)
      invariant AllParse(fields) && bytesList == ValuesOf(fields)
      decreases |input| - i
    {
      ghost var start := i;
      var q: nat := 0;
      while i < |input| && input[i] == '1'
        invariant start <= i <= |input| && q == i - start
        invariant forall k :: start <= k < i ==> input[k] == '1'
      {
        q := q + 1;
        i := i + 1;
      }
      i := i + 1;
      var rBits := Golomb.Slice(input, i, i + 3);
      i := i + 3;
      var field := Golomb.Field(q, rBits);
      var v := FieldValue(field);
      Golomb.DecodeAt(input, start, q, fields);
      if v.Err? {
        FailureStops(fields, field, Golomb.FieldsFrom(input, i), Golomb.FieldsFrom(input, 0));
        return Err(InvalidLiteral);
      }
      ValuesOfAppend(fields, field);
      fields := fields + [field];
      bytesList := bytesList + [v.value];
    }
    assert fields + [] == fields;
    output := ToBytes(bytesList);
  }

  /** A field that parses extends the list by its number. */
  lemma ValuesOfAppend(fs: seq<Golomb.Field>, f: Golomb.Field)
    requires AllParse(fs) && FieldValue(f).Ok?
    ensures AllParse(fs + [f]) && ValuesOf(fs + [f]) == ValuesOf(fs) + [FieldValue(f).value]
  {
    var gs := fs + [f];
    assert forall k :: 0 <= k < |fs| ==> gs[k] == fs[k];
    assert gs[|fs|] == f;
  }

  /** A field that does not parse makes the whole list fail. */
  lemma FailureStops(done: seq<Golomb.Field>, f: Golomb.Field, rest: seq<Golomb.Field>, all: seq<Golomb.Field>)
    requires (done + [f]) + rest == all && FieldValue(f).Err?
    ensures Values(all) == Err(InvalidLiteral)
  {
    assert all[|done|] == f;
  }

  // ---------------------------------------------------------------------------
  // Properties
  // ---------------------------------------------------------------------------

  /** Round trip: the Python decoder reads what `compress` writes back without error. */
  lemma RoundTrip(bytes: seq<Byte>)
    ensures Decode(Golomb.Encode(bytes)) == Ok(bytes)
  {
    Golomb.FieldsOfEncode(Golomb.Encode(bytes), 0, bytes, 0);
    FieldsOfValues(bytes);
  }

  /** The fields of a byte sequence all parse, and their numbers are the bytes again. */
  lemma FieldsOfValues(bytes: seq<Byte>)
    ensures AllParse(Golomb.FieldsOf(bytes, 0))
    ensures ToBytes(ValuesOf(Golomb.FieldsOf(bytes, 0))) == Ok(bytes)
  {
    var fs := Golomb.FieldsOf(bytes, 0);
    forall j | 0 <= j < |fs| ensures FieldValue(fs[j]) == Ok(bytes[j] as int) {
      FieldOfValue(bytes[j]);
    }
    var out := ToBytes(ValuesOf(fs));
    assert out.Ok? && out.value == bytes;
  }

  /** `int` reads the field of byte b back, and the field's number is b. */
  lemma FieldOfValue(b: Byte)
    ensures FieldValue(Golomb.FieldOf(b)) == Ok(b as int)
  {
    ParseRemainder(b % 8);
  }

  /** Reading from i in a binary string, every remainder slice is binary. */
  lemma {:induction false} FieldsBinary(s: seq<char>, i: nat)
    requires Golomb.IsBinary(s)
    ensures forall k :: 0 <= k < |Golomb.FieldsFrom(s, i)| ==> Golomb.IsBinary(Golomb.FieldsFrom(s, i)[k].bits)
    decreases |s| - i
  {
    if i < |s| {
      var j := Golomb.OnesEnd(s, i);
      FieldsBinary(s, j + 4);
      SliceBinary(s, j + 1, j + 4);
    }
  }

  lemma {:induction false} SliceBinary(s: seq<char>, a: nat, b: nat)
    requires Golomb.IsBinary(s)
    ensures Golomb.IsBinary(Golomb.Slice(s, a, b))
    decreases if a < b then b - a else 0
  {
    if a < b && a < |s| {
      SliceBinary(s, a + 1, b);
      var t := Golomb.Slice(s, a + 1, b);
      assert forall k :: 0 <= k < |t| ==> ([s[a]] + t)[k + 1] == t[k];
    }
  }

  /**
   * On a string of '0' and '1' the two decoders agree whenever the Python one
   * succeeds: each remainder slice is then non-empty, both parsers read its
   * binary value, and every value is already a byte.
   */
  lemma AgreesOnBinary(s: seq<char>)
    requires Golomb.IsBinary(s) && Decode(s).Ok?
    ensures Golomb.Decode(s) == Decode(s).value
  {
    var fs := Golomb.FieldsFrom(s, 0);
    FieldsBinary(s, 0);
    var vs := ValuesOf(fs);
    var ts := Golomb.Values(fs);
    forall k | 0 <= k < |fs| ensures ts[k] == Golomb.Int(vs[k]) {
      var t := fs[k].bits;
      EmptyRefused(t);
      ParseBinary(t);
      assert Golomb.SpaceEnd(t, 0) == 0 by {
        assert Golomb.IsBit(t[0]);
      }
      Golomb.BitsEndIs(t, 0, |t|);
    }
  }

  /** A stream cut short after the ones leaves an empty slice, and `int('', 2)` raises. */
  lemma TruncatedExample()
    ensures Decode("110") == Err(InvalidLiteral)
    ensures Golomb.Decode("110") == [0]
  {
    var s := "110";
    Golomb.OnesEndIs(s, 0, 2);
    assert Golomb.Slice(s, 3, 6) == [];
    assert Golomb.FieldsFrom(s, 0) == [Golomb.Field(2, [])];
    var fs := Golomb.FieldsFrom(s, 0);
    assert FieldValue(fs[0]) == Err(InvalidLiteral);
    Golomb.TruncatedExample();
  }

  /** A negative remainder is accepted by `int` but refused by `bytes`, where the Uint8Array wraps it to 255. */
  lemma NegativeExample()
    ensures Decode("0-1") == Err(ByteOutOfRange)
    ensures Golomb.Decode("0-1") == [255]
  {
    var s := "0-1";
    Golomb.OnesEndIs(s, 0, 0);
    var t := Golomb.Slice(s, 1, 4);
    assert t == "-1";
    assert Golomb.FieldsFrom(s, 0) == [Golomb.Field(0, t)];
    assert PyInt2(t) == Ok(-1) by {
      assert SpaceEnd(t, 0) == 0 && SpaceStart(t, 0, 2) == 2 && PrefixEnd(t, 1, 2) == 1;
      assert DigitsValue(t, 1, 1) == 0;
    }
    var fs := Golomb.FieldsFrom(s, 0);
    assert FieldValue(fs[0]) == Ok(-1);
    var vs := ValuesOf(fs);
    assert |vs| == 1 && vs[0] == -1;
    assert ToBytes(vs).Err?;
    Golomb.SignedRemainderExample();
  }

  /** `int` takes "0b1" as 1 where `parseInt` stops at the 'b' and reads 0. */
  lemma PrefixExample()
    ensures Decode("00b1") == Ok([1])
    ensures Golomb.Decode("00b1") == [0]
  {
    var s := "00b1";
    PrefixFields();
    PrefixLiteral();
    var fs := Golomb.FieldsFrom(s, 0);
    assert FieldValue(fs[0]) == Ok(1);
    var vs := ValuesOf(fs);
    assert |vs| == 1 && vs[0] == 1;
    var b := ToBytes(vs);
    assert b.Ok? && |b.value| == 1 && b.value[0] == 1;
    assert b.value == [1];
    assert Golomb.Values(fs) == [Golomb.Int(0)];
  }

  /** The two readings of the remainder characters "0b1". */
  lemma PrefixLiteral()
    ensures PyInt2("0b1") == Ok(1)
    ensures Golomb.ParseInt2("0b1") == Golomb.Int(0)
  {
    LiteralExamples();
    var t := "0b1";
    assert Golomb.SpaceEnd(t, 0) == 0;
    Golomb.BitsEndIs(t, 0, 1);
    assert Golomb.BinValue(t, 0, 0) == 0;
  }

  /** "00b1" is read as one field: no ones, and the remainder characters "0b1". */
  lemma PrefixFields()
    ensures Golomb.FieldsFrom("00b1", 0) == [Golomb.Field(0, "0b1")]
  {
    var s := "00b1";
    Golomb.OnesEndIs(s, 0, 0);
    assert Golomb.Slice(s, 1, 4) == "0b1";
  }
}

/**
 * LZW in the Python port (`LZWCompressor` in algorithms_py.py).  The
 * algorithm is the one of the TypeScript class, with two differences at the
 * edges:
 *
 *  - `dictionary[w]` raises KeyError where the TypeScript `get` gives
 *    `undefined`, so the codes are plain integers and a character from 256 on
 *    makes `compress` fail;
 *  - `decompress` reads its first code with `compressed[0]`, which raises
 *    IndexError on an empty list, and `chr`, which takes every code point
 *    0..0x10FFFF instead of a code unit modulo 2^16.
 *
 * The dictionaries are modelled as in module Lzw: the encoder's keys in code
 * order, and the decoder's values in code order.
 */
module PyLzw {
  import opened Base
  import Lzw

  type Str = seq<char>

  datatype Error =
    | KeyError      // `dictionary[w]` for a string that is not a key
    | IndexError    // `compressed[0]` of an empty list
    | ValueError    // `chr` out of range, or `raise ValueError('Invalid compressed data')`
    | LoneSurrogate // `chr` of a surrogate code point, which is no character

  // ---------------------------------------------------------------------------
  // Encoder
  // ---------------------------------------------------------------------------

  /** The encoder's state: the keys in code order, the current match `w`, and `result` so far. */
  datatype Encoder = Encoder(keys: seq<Str>, w: Str, result: seq<int>)

  /** One iteration of `for c in input_str`. */
  function Step(e: Encoder, c: char): Result<Encoder, Error> {
    var wc := e.w + [c];
    if wc in e.keys then Ok(e.(w := wc))
    else
      match Lzw.Lookup(e.keys, e.w)
      case None => Err(KeyError)
      case Some(k) => Ok(Encoder(e.keys + [wc], [c], e.result + [k]))
  }

  /** The state after the first i characters, or the KeyError raised on the way. */
  function RunTo(input: Str, i: nat): Result<Encoder, Error>
    requires i <= |input|
  {
    if i == 0 then Ok(Encoder(Lzw.Seed(), [], []))
    else
      match RunTo(input, i - 1)
      case Err(x) => Err(x)
      case Ok(e) => Step(e, input[i - 1])
  }

  /** The list `compress` hands to `json.dumps`, or the KeyError it raises. */
  function Encode(input: Str): Result<seq<int>, Error> {
    var e :- RunTo(input, |input|);
    if e.w == [] then Ok(e.result)
    else
      match Lzw.Lookup(e.keys, e.w)
      case None => Err(KeyError)
      case Some(k) => Ok(e.result + [k])
  }

  /** Once the encoder has raised, it stays raised. */
  lemma {:induction false} ErrorSticks(input: Str, i: nat, j: nat)
    requires i <= j <= |input| && RunTo(input, i).Err?
    ensures RunTo(input, j) == RunTo(input, i)
    decreases j - i
  {
    if i < j {
      ErrorSticks(input, i, j - 1);
    }
  }

  /** `LZWCompressor.compress` in Python, before `json.dumps`. */
  method Compress(input: Str) returns (output: Result<seq<int>, Error>)
    ensures output == Encode(input)
  {
    var dictionary: map<Str, int>;
    ghost var keys: seq<Str>;
    dictionary, keys := Lzw.SeedEncoderMap();
    var dictSize := 256;
    var w: Str := [];
    var result: seq<int> := [];
    for i := 0 to |input|
      invariant Lzw.Inverse(dictionary, keys) && dictSize == |keys|
      invariant RunTo(input, i) == Ok(Encoder(keys, w, result))
    {
      var c := input[i];
      var wc := w + [c];
      Lzw.InverseLookup(dictionary, keys, wc);
      if wc in dictionary {
        w := wc;
      } else {
        Lzw.InverseLookup(dictionary, keys, w);
        if w !in dictionary {
          ErrorSticks(input, i + 1, |input|);
          return Err(KeyError);
        }
        result := result + [dictionary[w]];
        Lzw.InverseInsert(dictionary, keys, wc);
        dictionary := dictionary[wc := dictSize];
        dictSize := dictSize + 1;
        keys := keys + [wc];
        w := [c];
      }
    }
    if w != [] {
      Lzw.InverseLookup(dictionary, keys, w);
      if w !in dictionary {
        return Err(KeyError);
      }
      result := result + [dictionary[w]];
    }
    return Ok(result);
  }

  // ---------------------------------------------------------------------------
  // Decoder
  // ---------------------------------------------------------------------------

  /** `chr(n)`: a code point 0..0x10FFFF; a surrogate is no character. */
  function Chr(n: int): (r: Result<char, Error>)
    ensures r.Ok? ==> r.value as int == n
    ensures r.Err? <==> n < 0 || n > 0x10FFFF || 0xD800 <= n < 0xE000
  {
    if n < 0 || n > 0x10FFFF then Err(ValueError)
    else if 0xD800 <= n < 0xE000 then Err(LoneSurrogate)
    else Ok(n as char)
  }

  /** The integers of the list as the codes of module Lzw. */
  function Wrap(codes: seq<int>): (r: seq<Option<int>>)
    ensures |r| == |codes| && forall k :: 0 <= k < |codes| ==> r[k] == Some(codes[k])
  {
    seq(|codes|, k requires 0 <= k < |codes| => Some(codes[k]))
  }

  /** What `decompress` returns for the list `json.loads` gave, or the error it raises. */
  function Decode(codes: seq<int>): Result<Str, Error> {
    if codes == [] then Err(IndexError)
    else
      var c :- Chr(codes[0]);
      match Lzw.DecodeTo(Wrap(codes), c, |codes| - 1)
      case Err(_) => Err(ValueError)
      case Ok(d) => Ok(d.result)
  }

  /** `LZWCompressor.decompress` in Python, after `json.loads`. */
  method Decompress(compressed: seq<int>) returns (output: Result<Str, Error>)
    ensures output == Decode(compressed)
  {
    var dictionary: map<int, Str>;
    ghost var dict: seq<Str>;
    dictionary, dict := Lzw.SeedDecoderMap();
    var dictSize := 256;
    if |compressed| == 0 {
      return Err(IndexError);
    }
    var c :- Chr(compressed[0]);
    ghost var codes := Wrap(compressed);
    var w: Str := [c];
    var result := w;
    var i := 1;
    while i < |compressed|
      invariant 1 <= i <= |compressed|
      invariant Lzw.Mirrors(dictionary, dict) && dictSize == |dict|
      invariant Lzw.DecodeTo(codes, c, i - 1) == Ok(Lzw.Decoder(dict, w, result))
      decreases |compressed| - i
    {
      var k := compressed[i];
      assert Lzw.Wf(Lzw.Decoder(dict, w, result));
      var entry: Str;
      if k in dictionary {
        entry := dictionary[k];
        assert entry == dict[k];
      } else if k == dictSize {
        entry := w + [w[0]];
      } else {
        Lzw.DecodeErrorSticks(codes, c, i, |compressed| - 1);
        return Err(ValueError);
      }
      result := result + entry;
      dictionary := dictionary[dictSize := w + [entry[0]]];
      dict := dict + [w + [entry[0]]];
      dictSize := dictSize + 1;
      w := entry;
      i := i + 1;
    }
    return Ok(result);
  }

  // ---------------------------------------------------------------------------
  // Agreement with the TypeScript class
  // ---------------------------------------------------------------------------

  /** The codes of a list without `null`, as integers. */
  function Unwrap(codes: seq<Option<int>>): (r: seq<int>)
    requires None !in codes
    ensures |r| == |codes| && forall k :: 0 <= k < |codes| ==> codes[k] == Some(r[k])
  {
    assert forall k :: 0 <= k < |codes| ==> codes[k] in codes && codes[k].Some?;
    seq(|codes|, k requires 0 <= k < |codes| => codes[k].value)
  }

  /** The Python encoder raises where the TypeScript one has emitted a `null`, and otherwise keeps the same state. */
  lemma {:induction false} RunAgrees(input: Str, i: nat)
    requires i <= |input|
    ensures var t := Lzw.RunTo(input, i);
      RunTo(input, i) == if None in t.out then Err(KeyError) else Ok(Encoder(t.keys, t.w, Unwrap(t.out)))
  {
    if i > 0 {
      RunAgrees(input, i - 1);
      var t := Lzw.RunTo(input, i - 1);
      var c := input[i - 1];
      var t' := Lzw.RunTo(input, i);
      if None !in t.out {
        if t.w + [c] !in t.keys {
          var out' := t.out + [Lzw.Lookup(t.keys, t.w)];
          assert t'.out == out';
          if Lzw.Lookup(t.keys, t.w).Some? {
            assert None !in out';
            assert Unwrap(out') == Unwrap(t.out) + [Lzw.Lookup(t.keys, t.w).value];
          } else {
            assert out'[|t.out|] == None;
          }
        }
      } else {
        var k :| 0 <= k < |t.out| && t.out[k] == None;
        assert t'.out[k] == None;
      }
    }
  }

  /** `compress` raises KeyError exactly where the TypeScript codes hold a `null`, and otherwise gives the same codes. */
  lemma EncodeAgrees(input: Str)
    ensures var t := Lzw.Encode(input);
      Encode(input) == if None in t then Err(KeyError) else Ok(Unwrap(t))
  {
    RunAgrees(input, |input|);
    var e := Lzw.RunTo(input, |input|);
    var t := Lzw.Encode(input);
    if None !in e.out && e.w != [] {
      var l := Lzw.Lookup(e.keys, e.w);
      assert t == e.out + [l];
      if l.Some? {
        assert None !in t;
        assert Unwrap(t) == Unwrap(e.out) + [l.value];
      } else {
        assert t[|e.out|] == None;
      }
    } else if None in e.out {
      var k :| 0 <= k < |e.out| && e.out[k] == None;
      assert t[k] == None;
    }
  }

  /** `compress` raises KeyError exactly when the input holds a character from 256 on. */
  lemma KeyErrorIffWide(input: Str)
    ensures Encode(input).Err? <==> !Lzw.AllBelow256(input)
    ensures Encode(input).Err? ==> Encode(input) == Err(KeyError)
  {
    EncodeAgrees(input);
    Lzw.NullIffWide(input);
  }

  /** On a list whose first code is below 256, `decompress` decodes as the TypeScript class does, ValueError in place of its Error. */
  lemma DecodeAgrees(codes: seq<int>)
    requires codes != [] && 0 <= codes[0] < 256
    ensures Decode(codes) == match Lzw.Decode(Wrap(codes))
      case Ok(s) => Ok(s)
      case Err(_) => Err(ValueError)
  {
  }

  /** Decompressing what `compress` produced gives the input back, for a non-empty input of characters below 256. */
  lemma RoundTrip(input: Str)
    requires input != [] && Lzw.AllBelow256(input)
    ensures Encode(input).Ok? && Decode(Encode(input).value) == Ok(input)
  {
    EncodeAgrees(input);
    Lzw.NullIffWide(input);
    Lzw.DecoderRebuildsDictionary(input);
    Lzw.RoundTrip(input);
    var t := Lzw.Encode(input);
    assert Wrap(Unwrap(t)) == t;
  }

  /** `decompress` with an empty list read as the empty string, where the source raises IndexError. */
  function CheckedDecode(codes: seq<int>): Result<Str, Error> {
    if codes == [] then Ok([]) else Decode(codes)
  }

  /** With the empty case corrected, every input of characters below 256 round-trips, the empty one included. */
  lemma CheckedRoundTrip(input: Str)
    requires Lzw.AllBelow256(input)
    ensures Encode(input).Ok? && CheckedDecode(Encode(input).value) == Ok(input)
  {
    if input == [] {
      EmptyInput();
    } else {
      RoundTrip(input);
    }
  }

  /** An empty input compresses to `[]`, and `[]` makes `decompress` raise IndexError. */
  lemma EmptyInput()
    ensures Encode([]) == Ok([]) && Decode([]) == Err(IndexError)
  {
  }

  /** A first code beyond 0xFFFF is one character for `chr`, where `String.fromCharCode` keeps only 16 bits. */
  lemma FirstCodeBeyond16Bits()
    ensures Decode([0x10000]) == Ok("\U{10000}")
    ensures Lzw.Decode([Some(0x10000)]) == Ok("\0")
  {
  }

  /** The word the module's own example compresses and decompresses. */
  lemma ExampleRoundTrip()
    ensures var s := "TOBEORNOTTOBEORTOBEORNOT"; Encode(s).Ok? && Decode(Encode(s).value) == Ok(s)
  {
    var s := "TOBEORNOTTOBEORTOBEORNOT";
    assert Lzw.AllBelow256(s);
    RoundTrip(s);
  }
}

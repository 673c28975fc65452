/**
 * LZW (`LZWCompressor`).  The encoder's `Map<string, number>` is seeded with
 * the 256 one-character strings at codes 0..255 and afterwards only ever
 * receives `set(wc, dictSize++)` for a `wc` that is not yet a key, so the
 * string inserted k-th has code k: the model keeps the keys in code order
 * (`keys[k]` is the string with code k), and the method keeps the `map`
 * itself and proves it is the inverse of that list.  The decoder's
 * `Map<number, string>` likewise holds exactly the codes 0..dictSize-1 and is
 * modelled by the list of its values.
 *
 * The codes are the array `compress` hands to `JSON.stringify` and the array
 * `decompress` gets from `JSON.parse`; an element is `None` where the array
 * holds `null` (the encoder's `dictionary.get(w)` of a string that is not a
 * key, for characters outside 0..255).
 */
module Lzw {
  import opened Base

  type Str = seq<char>

  /** The strings `String.fromCharCode(i)` for i = 0..255, at codes 0..255. */
  function Seed(): (keys: seq<Str>)
    ensures |keys| == 256 && forall k :: 0 <= k < 256 ==> keys[k] == [k as char]
  {
    seq(256, k requires 0 <= k < 256 => [k as char])
  }

  /** Every character of s has a code below 256. */
  predicate AllBelow256(s: Str) {
    forall k :: 0 <= k < |s| ==> s[k] as int < 256
  }

  // ---------------------------------------------------------------------------
  // Encoder
  // ---------------------------------------------------------------------------

  /** `dictionary.get(w)`: the code of w (its position in the key list), or `undefined`. */
  function Lookup(keys: seq<Str>, w: Str): (r: Option<int>)
    ensures r.Some? ==> 0 <= r.value < |keys| && keys[r.value] == w
    ensures r.None? ==> w !in keys
  {
    LookupFrom(keys, w, 0)
  }

  function LookupFrom(keys: seq<Str>, w: Str, i: nat): (r: Option<int>)
    requires i <= |keys|
    ensures r.Some? ==> i <= r.value < |keys| && keys[r.value] == w
    ensures r.None? ==> forall k :: i <= k < |keys| ==> keys[k] != w
    decreases |keys| - i
  {
    if i == |keys| then None else if keys[i] == w then Some(i) else LookupFrom(keys, w, i + 1)
  }

  /** The encoder's state: the dictionary's keys in code order, the current match `w`, and the codes so far. */
  datatype Encoder = Encoder(keys: seq<Str>, w: Str, out: seq<Option<int>>)

  function Start(): Encoder {
    Encoder(Seed(), [], [])
  }

  /** One iteration of the `for (const c of input)` loop. */
  function Step(e: Encoder, c: char): Encoder {
    var wc := e.w + [c];
    if wc in e.keys then e.(w := wc)
    else Encoder(e.keys + [wc], [c], e.out + [Lookup(e.keys, e.w)])
  }

  /** The encoder's state after the first i characters. */
  function RunTo(input: Str, i: nat): Encoder
    requires i <= |input|
  {
    if i == 0 then Start() else Step(RunTo(input, i - 1), input[i - 1])
  }

  /** The closing `if (w) result.push(dictionary.get(w))`. */
  function Finish(e: Encoder): seq<Option<int>> {
    if e.w != [] then e.out + [Lookup(e.keys, e.w)] else e.out
  }

  /** The codes `compress` produces. */
  function Encode(input: Str): seq<Option<int>> {
    Finish(RunTo(input, |input|))
  }

  /** The encoder's dictionary at the end, as its keys in code order. */
  function FinalKeys(input: Str): seq<Str> {
    RunTo(input, |input|).keys
  }

  // ---------------------------------------------------------------------------
  // Decoder
  // ---------------------------------------------------------------------------

  datatype Error =
    | InvalidCode   // `throw new Error('Invalid compressed data')`
    | LoneSurrogate // `String.fromCharCode` of a surrogate code unit, which is no character

  /** `String.fromCharCode(n)` for an integer n: the code unit n modulo 2^16. */
  function FromCharCode(n: int): (r: Result<char, Error>)
    ensures 0 <= n < 256 ==> r == Ok(n as char)
  {
    var u := n % 0x1_0000;
    if 0xD800 <= u < 0xE000 then Err(LoneSurrogate) else Ok(u as char)
  }

  /** The decoder's state: the dictionary's values in code order, the previous entry `w`, and the text so far. */
  datatype Decoder = Decoder(dict: seq<Str>, w: Str, result: Str)

  /** The decoder never holds an empty string. */
  predicate Wf(d: Decoder) {
    d.w != [] && forall k :: 0 <= k < |d.dict| ==> d.dict[k] != []
  }

  /** One iteration of the decoding loop for the code k: a known code, the code `dictSize`, or an error. */
  function DecStep(d: Decoder, k: Option<int>): (r: Result<Decoder, Error>)
    requires Wf(d)
    ensures r.Ok? ==> Wf(r.value) && |r.value.dict| == |d.dict| + 1
    ensures r.Err? <==> !(k.Some? && 0 <= k.value <= |d.dict|)
  {
    if k.Some? && 0 <= k.value < |d.dict| then
      var entry := d.dict[k.value];
      Ok(Decoder(d.dict + [d.w + [entry[0]]], entry, d.result + entry))
    else if k == Some(|d.dict|) then
      var entry := d.w + [d.w[0]];
      Ok(Decoder(d.dict + [d.w + [entry[0]]], entry, d.result + entry))
    else
      Err(InvalidCode)
  }

  /** Once decoding fails, it fails with the same error whatever follows. */
  lemma {:induction false} DecodeErrorSticks(codes: seq<Option<int>>, c: char, i: nat, j: nat)
    requires i <= j < |codes| && DecodeTo(codes, c, i).Err?
    ensures DecodeTo(codes, c, j) == DecodeTo(codes, c, i)
    decreases j - i
  {
    if i < j {
      DecodeErrorSticks(codes, c, i, j - 1);
    }
  }

  /** The decoder's state after the first i codes following `compressed[0]`, whose character is c. */
  function DecodeTo(codes: seq<Option<int>>, c: char, i: nat): (r: Result<Decoder, Error>)
    requires i < |codes| || i == 0
    ensures r.Ok? ==> Wf(r.value) && |r.value.dict| == 256 + i
  {
    if i == 0 then Ok(Decoder(Seed(), [c], [c]))
    else
      match DecodeTo(codes, c, i - 1)
      case Err(e) => Err(e)
      case Ok(d) => DecStep(d, codes[i])
  }

  /** `compressed[0]`, which is `undefined` for an empty array; `null` and `undefined` both become 0. */
  function FirstCode(codes: seq<Option<int>>): int {
    if |codes| > 0 then codes[0].GetOr(0) else 0
  }

  /** What `decompress` returns, or the error it throws. */
  function Decode(codes: seq<Option<int>>): Result<Str, Error> {
    match FromCharCode(FirstCode(codes))
    case Err(e) => Err(e)
    case Ok(c) =>
      var steps := if |codes| > 0 then |codes| - 1 else 0;
      match DecodeTo(codes, c, steps)
      case Err(e) => Err(e)
      case Ok(d) => Ok(d.result)
  }

  // ---------------------------------------------------------------------------
  // The two methods
  // ---------------------------------------------------------------------------

  /** The encoder's map sends keys[k] to k and nothing else. */
  ghost predicate Inverse(dictionary: map<Str, int>, keys: seq<Str>) {
    && (forall k :: 0 <= k < |keys| ==> keys[k] in dictionary && dictionary[keys[k]] == k)
    && (forall x :: x in dictionary ==> 0 <= dictionary[x] < |keys| && keys[dictionary[x]] == x)
  }

  /** `set(x, keys.length)` for a new key x extends the key list by x. */
  lemma {:induction false} InverseInsert(dictionary: map<Str, int>, keys: seq<Str>, x: Str)
    requires Inverse(dictionary, keys) && x !in dictionary
    ensures Inverse(dictionary[x := |keys|], keys + [x])
  {
    var d, ks := dictionary[x := |keys|], keys + [x];
    forall k | 0 <= k < |ks| ensures ks[k] in d && d[ks[k]] == k {
      if k < |keys| {
        assert ks[k] == keys[k] && keys[k] != x;
      }
    }
  }

  /** `has` and `get` on the map agree with membership and `Lookup` on the key list. */
  lemma {:induction false} InverseLookup(dictionary: map<Str, int>, keys: seq<Str>, x: Str)
    requires Inverse(dictionary, keys)
    ensures x in dictionary <==> x in keys
    ensures Lookup(keys, x) == if x in dictionary then Some(dictionary[x]) else None
  {
    if x in keys {
      var k :| 0 <= k < |keys| && keys[k] == x;
      assert x in dictionary;
    }
    var r := Lookup(keys, x);
    if r.Some? {
      assert dictionary[keys[r.value]] == r.value;
    }
  }

  /** The encoder's seeded map: each one-character string `String.fromCharCode(i)`, i < 256, to i. */
  method SeedEncoderMap() returns (dictionary: map<Str, int>, ghost keys: seq<Str>)
    ensures Inverse(dictionary, keys) && keys == Seed()
  {
    dictionary := map[];
    keys := [];
    for i := 0 to 256
      invariant Inverse(dictionary, keys) && |keys| == i
      invariant forall k :: 0 <= k < i ==> keys[k] == [k as char]
    {
      var x: Str := [i as char];
      assert x !in dictionary by {
        forall y | y in dictionary ensures y != x {
          assert keys[dictionary[y]] == [dictionary[y] as char];
        }
      }
      InverseInsert(dictionary, keys, x);
      dictionary := dictionary[x := i];
      keys := keys + [x];
    }
  }

  /** `LZWCompressor.compress`, before `JSON.stringify`. */
  method Compress(input: Str) returns (result: seq<Option<int>>)
    ensures result == Encode(input)
  {
    var dictionary: map<Str, int>;
    ghost var keys: seq<Str>;
    dictionary, keys := SeedEncoderMap();
    var dictSize := 256;
    var w: Str := [];
    result := [];
    for i := 0 to |input|
      invariant Inverse(dictionary, keys) && dictSize == |keys|
      invariant RunTo(input, i) == Encoder(keys, w, result)
    {
      var c := input[i];
      var wc := w + [c];
      InverseLookup(dictionary, keys, wc);
      if wc in dictionary {
        w := wc;
      } else {
        InverseLookup(dictionary, keys, w);
        result := result + [if w in dictionary then Some(dictionary[w]) else None];
        InverseInsert(dictionary, keys, wc);
        dictionary := dictionary[wc := dictSize];
        dictSize := dictSize + 1;
        keys := keys + [wc];
        w := [c];
      }
    }
    if w != [] {
      InverseLookup(dictionary, keys, w);
      result := result + [if w in dictionary then Some(dictionary[w]) else None];
    }
  }

  /** The decoder's map holds exactly the codes 0..|dict|-1, with the values of dict. */
  ghost predicate Mirrors(dictionary: map<int, Str>, dict: seq<Str>) {
    && (forall k :: k in dictionary <==> 0 <= k < |dict|)
    && (forall k :: 0 <= k < |dict| ==> dictionary[k] == dict[k])
  }

  /** The decoder's seeded map: each i < 256 to the one-character string `String.fromCharCode(i)`. */
  method SeedDecoderMap() returns (dictionary: map<int, Str>, ghost dict: seq<Str>)
    ensures Mirrors(dictionary, dict) && dict == Seed()
  {
    dictionary := map[];
    dict := [];
    for i := 0 to 256
      invariant Mirrors(dictionary, dict) && |dict| == i
      invariant forall k :: 0 <= k < i ==> dict[k] == [k as char]
    {
      dictionary := dictionary[i := [i as char]];
      dict := dict + [[i as char]];
    }
  }

  /** `LZWCompressor.decompress`, after `JSON.parse`. */
  method Decompress(compressed: seq<Option<int>>) returns (output: Result<Str, Error>)
    ensures output == Decode(compressed)
  {
    var dictionary: map<int, Str>;
    ghost var dict: seq<Str>;
    dictionary, dict := SeedDecoderMap();
    var dictSize := 256;
    var first := if |compressed| > 0 then compressed[0] else None;
    var c :- FromCharCode(first.GetOr(0));
    var w: Str := [c];
    var result := w;
    var i := 1;
    while i < |compressed|
      invariant 1 <= i && (i <= |compressed| || i == 1)
      invariant Mirrors(dictionary, dict) && dictSize == |dict|
      invariant DecodeTo(compressed, c, i - 1) == Ok(Decoder(dict, w, result))
      decreases |compressed| - i
    {
      var k := compressed[i];
      assert Wf(Decoder(dict, w, result));
      var entry: Str;
      if k.Some? && k.value in dictionary {
        entry := dictionary[k.value];
        assert entry == dict[k.value];
      } else if k == Some(dictSize) {
        entry := w + [w[0]];
      } else {
        DecodeErrorSticks(compressed, c, i, |compressed| - 1);
        return Err(InvalidCode);
      }
      result := result + entry;
      dictionary := dictionary[dictSize := w + [entry[0]]];
      dict := dict + [w + [entry[0]]];
      dictSize := dictSize + 1;
      w := entry;
      i := i + 1;
    }
    return Ok(result);
  }

  // ---------------------------------------------------------------------------
  // The encoder's dictionary
  // ---------------------------------------------------------------------------

  predicate Distinct(keys: seq<Str>) {
    forall a, b :: 0 <= a < b < |keys| ==> keys[a] != keys[b]
  }

  /**
   * For any input the dictionary's keys stay distinct and one key is added per
   * code emitted on a miss, so after i characters there are at most i codes and
   * at most 256 + i keys.
   */
  lemma {:induction false} EncoderDictionary(input: Str, i: nat)
    requires i <= |input|
    ensures var e := RunTo(input, i);
      Distinct(e.keys) && |e.keys| == 256 + |e.out| && |e.out| <= i
  {
    if i == 0 {
      var keys := Seed();
      forall a, b | 0 <= a < b < 256 ensures keys[a] != keys[b] {
        assert keys[a][0] != keys[b][0];
      }
    } else {
      EncoderDictionary(input, i - 1);
    }
  }

  /** `compress` emits at most one code more than there are characters, and the dictionary holds at most 256 + n strings. */
  lemma EncodeBounds(input: Str)
    ensures |Encode(input)| <= |input| + 1 && |FinalKeys(input)| <= 256 + |input|
  {
    EncoderDictionary(input, |input|);
  }

  /** An empty input compresses to no codes, but no codes decompress to "\0". */
  lemma EmptyInput()
    ensures Encode([]) == [] && Decode([]) == Ok(['\0'])
  {
  }

  // ---------------------------------------------------------------------------
  // What the codes mean
  // ---------------------------------------------------------------------------

  /** Every code is a number within the key list. */
  predicate Known(keys: seq<Str>, codes: seq<Option<int>>, n: nat) {
    n <= |codes| && forall j :: 0 <= j < n ==> codes[j].Some? && 0 <= codes[j].value < |keys|
  }

  /** The string of the j-th code. */
  function Phrase(keys: seq<Str>, codes: seq<Option<int>>, j: nat): Str
    requires j < |codes| && codes[j].Some? && 0 <= codes[j].value < |keys|
  {
    keys[codes[j].value]
  }

  /** The strings of the first n codes, concatenated. */
  function Spelled(keys: seq<Str>, codes: seq<Option<int>>, n: nat): (s: Str)
    requires Known(keys, codes, n)
  {
    if n == 0 then [] else Spelled(keys, codes, n - 1) + Phrase(keys, codes, n - 1)
  }

  /** Spelled only depends on the strings of the codes. */
  lemma {:induction false} SpelledAgree(k1: seq<Str>, c1: seq<Option<int>>, k2: seq<Str>, c2: seq<Option<int>>, n: nat)
    requires Known(k1, c1, n) && Known(k2, c2, n)
    requires forall j :: 0 <= j < n ==> Phrase(k1, c1, j) == Phrase(k2, c2, j)
    ensures Spelled(k1, c1, n) == Spelled(k2, c2, n)
  {
    if n > 0 {
      SpelledAgree(k1, c1, k2, c2, n - 1);
    }
  }

  /**
   * codes is what the encoder emits with the final key list keys: the j-th code
   * is below 256 + j, so the decoder already knows it or is about to add it,
   * and the key added after the j-th code is that code's string followed by
   * the first character of the next code's string.
   */
  predicate Coded(keys: seq<Str>, codes: seq<Option<int>>) {
    && |codes| >= 1 && |keys| == 256 + |codes| - 1
    && (forall k :: 0 <= k < 256 ==> keys[k] == [k as char])
    && (forall k :: 0 <= k < |keys| ==> keys[k] != [])
    && (forall j :: 0 <= j < |codes| ==> codes[j].Some? && 0 <= codes[j].value < 256 + j)
    && (forall j :: 0 <= j < |codes| - 1 ==>
          keys[256 + j] == Phrase(keys, codes, j) + [Phrase(keys, codes, j + 1)[0]])
  }

  /** After i > 0 characters, stopping would leave codes that spell exactly those characters. */
  predicate EncInv(input: Str, i: nat, e: Encoder)
    requires 0 < i <= |input|
  {
    var f := Finish(e);
    && e.w != [] && Coded(e.keys, f) && |f| <= i
    && Known(e.keys, f, |f|) && Spelled(e.keys, f, |f|) == input[..i]
  }

  /** The first character is always a hit: the match becomes that character. */
  lemma EncInvFirst(input: Str)
    requires 0 < |input| && input[0] as int < 256
    ensures EncInv(input, 1, RunTo(input, 1))
  {
    var c := input[0];
    var s := Start();
    assert s.w + [c] == [c];
    assert s.keys[c as int] == [c];
    assert Step(s, c) == Encoder(Seed(), [c], []);
    assert RunTo(input, 0) == s;
    SingleMatch(input, Encoder(Seed(), [c], []));
  }

  lemma SingleMatch(input: Str, e: Encoder)
    requires 0 < |input| && input[0] as int < 256 && e == Encoder(Seed(), [input[0]], [])
    ensures EncInv(input, 1, e)
  {
    var c := input[0];
    assert e.keys[c as int] == [c];
    var f := Finish(e);
    var v := f[0].value;
    assert 0 <= v < 256 && e.keys[v] == [c];
    assert Coded(e.keys, f);
    assert Spelled(e.keys, f, 1) == [c];
    assert input[..1] == [c];
  }

  /** A hit extends the match: the last code now stands for one character more. */
  lemma {:induction false} EncInvHit(input: Str, i: nat, e: Encoder)
    requires 0 < i < |input| && EncInv(input, i, e)
    requires e.w + [input[i]] in e.keys
    ensures EncInv(input, i + 1, Step(e, input[i]))
  {
    var c := input[i];
    var wc := e.w + [c];
    var e' := Step(e, c);
    assert e' == e.(w := wc);
    var f, f' := Finish(e), Finish(e');
    var n := |e.out|;
    assert |f'| == |f| == n + 1;
    assert Phrase(e.keys, f, n) == e.w && Phrase(e.keys, f', n) == wc;
    forall j | 0 <= j < n ensures f'[j] == f[j] {
    }
    SpelledAgree(e.keys, f, e.keys, f', n);
    assert Spelled(e.keys, f', n + 1) == Spelled(e.keys, f, n + 1) + [c];
    assert input[..i + 1] == input[..i] + [c];
  }

  /** A miss emits the code of w, adds w + c at the next code and restarts the match at c. */
  lemma {:induction false} EncInvMiss(input: Str, i: nat, e: Encoder)
    requires 0 < i < |input| && EncInv(input, i, e) && input[i] as int < 256
    requires e.w + [input[i]] !in e.keys
    ensures EncInv(input, i + 1, Step(e, input[i]))
  {
    var c := input[i];
    var wc := e.w + [c];
    var e' := Step(e, c);
    var keys' := e.keys + [wc];
    assert e' == Encoder(keys', [c], e.out + [Lookup(e.keys, e.w)]);
    var f := Finish(e);
    assert keys'[c as int] == [c];
    var f' := Finish(e');
    var n := |f|;
    assert f' == f + [Lookup(keys', [c])];
    var u := f'[n].value;
    assert keys'[u] == [c];
    forall j | 0 <= j < n ensures Phrase(keys', f', j) == Phrase(e.keys, f, j) {
      assert f'[j] == f[j];
    }
    assert keys'[256 + n - 1] == wc;
    SpelledAgree(e.keys, f, keys', f', n);
    assert Spelled(keys', f', n + 1) == Spelled(e.keys, f, n) + [c];
    assert input[..i + 1] == input[..i] + [c];
  }

  /** The encoder invariant holds after every character, for characters below 256. */
  lemma {:induction false} EncInvAll(input: Str, i: nat)
    requires 0 < i <= |input| && AllBelow256(input)
    ensures EncInv(input, i, RunTo(input, i))
  {
    if i == 1 {
      EncInvFirst(input);
    } else {
      EncInvAll(input, i - 1);
      var e := RunTo(input, i - 1);
      if e.w + [input[i - 1]] in e.keys {
        EncInvHit(input, i - 1, e);
      } else {
        EncInvMiss(input, i - 1, e);
      }
    }
  }

  /**
   * For characters below 256, the match `w` is a key from the first character
   * on, and it is empty only before it.
   */
  lemma MatchIsKey(input: Str, i: nat)
    requires i <= |input| && AllBelow256(input)
    ensures var e := RunTo(input, i); (e.w == [] <==> i == 0) && (i > 0 ==> e.w in e.keys)
  {
    if i > 0 {
      EncInvAll(input, i);
      var e := RunTo(input, i);
      var f := Finish(e);
      assert Lookup(e.keys, e.w) == f[|f| - 1];
    }
  }

  /**
   * For a non-empty input of characters below 256, the strings of the codes
   * spell the input, and there are at most as many codes as characters.
   */
  lemma CodesSpellInput(input: Str)
    requires |input| > 0 && AllBelow256(input)
    ensures Coded(FinalKeys(input), Encode(input))
    ensures Spelled(FinalKeys(input), Encode(input), |Encode(input)|) == input
    ensures |Encode(input)| <= |input|
  {
    EncInvAll(input, |input|);
    assert input[..|input|] == input;
  }

  // ---------------------------------------------------------------------------
  // Decoding what was coded
  // ---------------------------------------------------------------------------

  /**
   * On coded input the decoder after i further codes holds the encoder's first
   * 256 + i keys, the string of the i-th code, and the strings of codes 0..i.
   */
  lemma {:induction false} DecodeCoded(keys: seq<Str>, codes: seq<Option<int>>, i: nat)
    requires Coded(keys, codes) && i < |codes|
    ensures var r := DecodeTo(codes, codes[0].value as char, i);
      && r.Ok? && (forall k :: 0 <= k < 256 + i ==> r.value.dict[k] == keys[k])
      && r.value.w == Phrase(keys, codes, i) && r.value.result == Spelled(keys, codes, i + 1)
  {
    var c := codes[0].value as char;
    if i == 0 {
      assert Phrase(keys, codes, 0) == [c];
    } else {
      DecodeCoded(keys, codes, i - 1);
      var d := DecodeTo(codes, c, i - 1).value;
      var p, q := Phrase(keys, codes, i - 1), Phrase(keys, codes, i);
      var k := codes[i].value;
      assert keys[256 + i - 1] == p + [q[0]];
      if k == 256 + i - 1 {
        assert q == p + [q[0]];
        assert q[0] == p[0];
      }
      var d' := DecStep(d, codes[i]).value;
      assert d'.w == q;
      assert d'.result == Spelled(keys, codes, i + 1);
      forall j | 0 <= j < 256 + i ensures d'.dict[j] == keys[j] {
      }
    }
  }

  /** Decompressing the compressed codes gives back the input, for non-empty input of characters below 256. */
  lemma RoundTrip(input: Str)
    requires |input| > 0 && AllBelow256(input)
    ensures Decode(Encode(input)) == Ok(input)
  {
    var keys, codes := FinalKeys(input), Encode(input);
    CodesSpellInput(input);
    DecodeCoded(keys, codes, |codes| - 1);
  }

  /** `decompress` with an empty code list read as the empty string, where the source reads `compressed[0]`. */
  function CheckedDecode(codes: seq<Option<int>>): Result<Str, Error> {
    if codes == [] then Ok([]) else Decode(codes)
  }

  /** With the empty case corrected, every input of characters below 256 round-trips, the empty one included. */
  lemma CheckedRoundTrip(input: Str)
    requires AllBelow256(input)
    ensures CheckedDecode(Encode(input)) == Ok(input)
  {
    if input == [] {
      EmptyInput();
    } else {
      DecoderRebuildsDictionary(input);
      RoundTrip(input);
    }
  }

  /**
   * Along the way the decoder rebuilds exactly the encoder's dictionary, and it
   * ends holding the encoder's last match.
   */
  lemma DecoderRebuildsDictionary(input: Str)
    requires |input| > 0 && AllBelow256(input)
    ensures var codes := Encode(input);
      && |codes| > 0 && codes[0].Some? && 0 <= codes[0].value < 256
      && DecodeTo(codes, codes[0].value as char, |codes| - 1)
         == Ok(Decoder(FinalKeys(input), RunTo(input, |input|).w, input))
  {
    var keys, codes := FinalKeys(input), Encode(input);
    CodesSpellInput(input);
    DecodeCoded(keys, codes, |codes| - 1);
    var d := DecodeTo(codes, codes[0].value as char, |codes| - 1).value;
    assert d.dict == keys;
  }

  // ---------------------------------------------------------------------------
  // Errors and edge cases
  // ---------------------------------------------------------------------------

  /**
   * A code that is neither in the decoder's dictionary nor the next code to be
   * added (a `null`, a negative number, or one beyond `dictSize`) makes
   * `decompress` throw.
   */
  lemma DecodeRejects(codes: seq<Option<int>>, c: char, i: nat)
    requires FromCharCode(FirstCode(codes)) == Ok(c)
    requires 1 <= i < |codes| && DecodeTo(codes, c, i - 1).Ok?
    requires !(codes[i].Some? && 0 <= codes[i].value <= 256 + i - 1)
    ensures Decode(codes) == Err(InvalidCode)
  {
    DecodeErrorSticks(codes, c, i, |codes| - 1);
  }

  /** "aaa": the second code is the one the decoder is about to add, and it still decodes. */
  lemma RepeatedCharacter()
    ensures Encode("aaa") == [Some(97), Some(256)]
    ensures Decode([Some(97), Some(256)]) == Ok("aaa")
  {
    RepeatedPrefix();
    var keys := Seed() + ["aa"];
    var e3 := Encoder(keys, "aa", [Some(97)]);
    assert "a" + "a" == "aa" && "aa" in keys;
    assert RunTo("aaa", 3) == e3;
    assert Lookup(keys, "aa") == Some(256) by {
      assert keys[256] == "aa";
      assert forall j :: 0 <= j < 256 ==> keys[j] == Seed()[j];
    }
    assert Encode("aaa") == [Some(97), Some(256)];
    assert AllBelow256("aaa");
    RoundTrip("aaa");
  }

  /** The encoder's state after "aa". */
  lemma RepeatedPrefix()
    ensures RunTo("aaa", 2) == Encoder(Seed() + ["aa"], "a", [Some(97)])
  {
    var s := Start();
    assert s.w + ['a'] == "a" && s.keys[97] == "a";
    var e1 := Encoder(Seed(), "a", []);
    assert RunTo("aaa", 0) == s;
    assert RunTo("aaa", 1) == e1;
    assert "a" + "a" == "aa" && "aa" !in Seed();
    assert Lookup(Seed(), "a") == Some(97) by {
      var r := Lookup(Seed(), "a");
      assert r.Some?;
      assert Seed()[r.value] == [r.value as char];
    }
  }

  /**
   * A character from 256 on is not in the seeded dictionary: `compress` emits
   * `null` for the empty match before it, and decompressing does not give the
   * input back.
   */
  lemma WideCharacter()
    ensures Encode("\U{100}") == [None, Some(256)]
    ensures Decode([None, Some(256)]) == Ok("\0\0\0")
  {
    WideEncode();
    var d := Decoder(Seed(), "\0", "\0");
    assert DecodeTo([None, Some(256)], '\0', 0) == Ok(d);
    assert DecStep(d, Some(256)).value.result == "\0\0\0";
  }

  lemma WideEncode()
    ensures Encode("\U{100}") == [None, Some(256)]
  {
    var s := Start();
    assert s.w + ['\U{100}'] == "\U{100}";
    assert "\U{100}" !in Seed() by {
      forall k | 0 <= k < 256 ensures Seed()[k] != "\U{100}" {
        assert Seed()[k][0] == k as char;
      }
    }
    assert [] !in Seed();
    var keys := Seed() + ["\U{100}"];
    assert RunTo("\U{100}", 0) == s;
    assert RunTo("\U{100}", 1) == Encoder(keys, "\U{100}", [None]);
    assert Lookup(keys, "\U{100}") == Some(256) by {
      assert keys[256] == "\U{100}";
      assert forall j :: 0 <= j < 256 ==> keys[j] == Seed()[j];
    }
  }

  // ---------------------------------------------------------------------------
  // Characters without a code
  // ---------------------------------------------------------------------------

  /** The match and every key hold only characters below 256. */
  predicate Narrow(e: Encoder) {
    AllBelow256(e.w) && forall k :: 0 <= k < |e.keys| ==> AllBelow256(e.keys[k])
  }

  /** While the characters read are below 256, so are those of the match and the keys. */
  lemma {:induction false} NarrowRun(input: Str, i: nat)
    requires i <= |input| && forall k :: 0 <= k < i ==> input[k] as int < 256
    ensures Narrow(RunTo(input, i))
  {
    if i == 0 {
      forall k | 0 <= k < 256 ensures AllBelow256(Seed()[k]) {
        assert Seed()[k] == [k as char];
      }
    } else {
      NarrowRun(input, i - 1);
      var e := RunTo(input, i - 1);
      var wc := e.w + [input[i - 1]];
      assert AllBelow256(wc) by {
        forall k | 0 <= k < |wc| ensures wc[k] as int < 256 {
          if k < |e.w| {
            assert wc[k] == e.w[k];
          }
        }
      }
      var keys := e.keys + [wc];
      forall k | 0 <= k < |keys| ensures AllBelow256(keys[k]) {
        if k < |e.keys| {
          assert keys[k] == e.keys[k];
        }
      }
    }
  }

  /** A string holding a character from 256 on is not a key of a narrow state. */
  lemma WideNotKey(e: Encoder, x: Str, j: nat)
    requires Narrow(e) && j < |x| && x[j] as int >= 256
    ensures x !in e.keys
  {
    forall k | 0 <= k < |e.keys| ensures e.keys[k] != x {
      if |e.keys[k]| == |x| {
        assert e.keys[k][j] != x[j];
      }
    }
  }

  /** Once a `null` is emitted it stays among the codes. */
  lemma {:induction false} NullStays(input: Str, i: nat)
    requires i <= |input| && None in RunTo(input, i).out
    ensures None in Encode(input)
    decreases |input| - i
  {
    if i < |input| {
      var e := RunTo(input, i);
      var out := RunTo(input, i + 1).out;
      assert out == e.out || out == e.out + [Lookup(e.keys, e.w)];
      var k :| 0 <= k < |e.out| && e.out[k] == None;
      assert out[k] == None;
      NullStays(input, i + 1);
    } else {
      var e := RunTo(input, i);
      var k :| 0 <= k < |e.out| && e.out[k] == None;
      assert Finish(e)[k] == None;
    }
  }

  /** The first character from 256 on makes `compress` emit a `null`, at once or one step later. */
  lemma WideEmitsNull(input: Str, p: nat)
    requires p < |input| && input[p] as int >= 256
    requires forall k :: 0 <= k < p ==> input[k] as int < 256
    ensures None in Encode(input)
  {
    NarrowRun(input, p);
    var e := RunTo(input, p);
    var c := input[p];
    var wc := e.w + [c];
    WideNotKey(e, wc, |e.w|);
    var keys := e.keys + [wc];
    var e1 := Encoder(keys, [c], e.out + [Lookup(e.keys, e.w)]);
    assert RunTo(input, p + 1) == e1;
    if p == 0 {
      assert e.w == [] && [] !in e.keys;
      assert e1.out[|e.out|] == None;
      NullStays(input, p + 1);
    } else {
      assert e.w != [] && wc[0] == e.w[0] && e.w[0] as int < 256;
      WideNotKey(e, [c], 0);
      assert [c] !in keys;
      if p + 1 == |input| {
        assert Encode(input) == e1.out + [Lookup(keys, [c])];
      } else {
        var c2 := input[p + 1];
        WideNotKey(e, [c, c2], 0);
        assert [c, c2] != wc && e1.w + [c2] == [c, c2];
        assert [c, c2] !in keys;
        assert RunTo(input, p + 2).out == e1.out + [Lookup(keys, [c])];
        NullStays(input, p + 2);
      }
    }
  }

  /** The first position from i on whose character is from 256 on, or |s|. */
  function FirstWide(s: Str, i: nat): (p: nat)
    requires i <= |s|
    ensures i <= p <= |s| && (p < |s| ==> s[p] as int >= 256)
    ensures forall k :: i <= k < p ==> s[k] as int < 256
    decreases |s| - i
  {
    if i == |s| || s[i] as int >= 256 then i else FirstWide(s, i + 1)
  }

  /** `compress` emits a `null` exactly when the input holds a character from 256 on. */
  lemma NullIffWide(input: Str)
    ensures None in Encode(input) <==> !AllBelow256(input)
  {
    if AllBelow256(input) {
      if |input| > 0 {
        CodesSpellInput(input);
        var codes := Encode(input);
        forall k | 0 <= k < |codes| ensures codes[k] != None {
        }
      } else {
        assert Encode(input) == [];
      }
    } else {
      var p := FirstWide(input, 0);
      WideEmitsNull(input, p);
    }
  }
}

/**
 * Huffman in the Python port (`HuffmanCompressor` in algorithms_py.py).
 *
 * The frequency table, the tree and the code table are built as in the
 * TypeScript class: a dict keeps insertion order as a Map does, `list.sort` is
 * stable as `Array.prototype.sort` is, and `pop(0)` twice then `append` is
 * `shift` twice then `push`.  Two things differ: the table text is written by
 * `json.dumps` (module PyJson), and `decompress` splits with
 * `split('|', 1)`, so the bits are all the text after the first `|`.
 */
module PyHuffman {
  import opened Base
  import opened OrderedMap
  import opened HuffmanTree
  import Huffman
  import PyJson

  /** What `compress` returns. */
  function Encode(input: Str): Str {
    if input == [] then []
    else
      var table := Huffman.Table(input);
      PyJson.Dumps(Huffman.TableText(table)) + "|" + Huffman.PayloadTo(input, table, |input|)
  }

  /** `HuffmanCompressor.compress` in Python. */
  method Compress(input: Str) returns (output: Str)
    ensures output == Encode(input)
    ensures input == [] ==> output == []
  {
    if input == [] {
      return [];
    }
    var freq := Huffman.BuildFrequencyTable(input);
    var tree := BuildHuffmanTree(freq);
    var codeTable := CodeTable(tree);
    var compressed := [];
    for i := 0 to |input|
      invariant compressed == Huffman.PayloadTo(input, codeTable, i)
    {
      compressed := compressed + Get(codeTable, input[i]).GetOr([]);
    }
    var tableStr := PyJson.Dumps(Huffman.TableText(codeTable));
    output := tableStr + "|" + compressed;
  }

  /** `split('|', 1)`: the text before the first `|` and all the text after it, or None without a `|`. */
  function Split(s: Str): (r: Option<(Str, Str)>)
    ensures r.None? <==> '|' !in s
    ensures r.Some? ==> s == r.value.0 + "|" + r.value.1 && '|' !in r.value.0
  {
    var k := Huffman.BarFrom(s, 0);
    if k == |s| then None
    else
      assert s == s[..k] + "|" + s[k + 1..];
      Some((s[..k], s[k + 1..]))
  }

  /** What `decompress` returns, or the error `json.loads` raises. */
  function Decode(input: Str): Result<Str, PyJson.JsonError> {
    match Split(input)
    case None => Ok([])
    case Some((tableStr, compressed)) =>
      if tableStr == [] || compressed == [] then Ok([])
      else
        var pairs :- PyJson.Loads(tableStr);
        Ok(Huffman.GreedyTo(Huffman.ReverseTable(pairs), compressed, |compressed|).0)
  }

  /** `HuffmanCompressor.decompress` in Python. */
  method Decompress(input: Str) returns (r: Result<Str, PyJson.JsonError>)
    ensures r == Decode(input)
  {
    var parts := Split(input);
    if parts.None? {
      return Ok([]);
    }
    var tableStr, compressed := parts.value.0, parts.value.1;
    if tableStr == [] || compressed == [] {
      return Ok([]);
    }
    var parsed := PyJson.Loads(tableStr);
    if parsed.Err? {
      return Err(parsed.error);
    }
    var codeTable := SetAll([], parsed.value, |parsed.value|);
    var reverseTable := SetAll([], Huffman.Reverse(codeTable), |codeTable|);
    var decompressed, code := [], [];
    for i := 0 to |compressed|
      invariant (decompressed, code) == Huffman.GreedyTo(reverseTable, compressed, i)
    {
      code := code + [compressed[i]];
      var hit := Get(reverseTable, code);
      if hit.Some? {
        decompressed := decompressed + hit.value;
        code := [];
      }
    }
    r := Ok(decompressed);
  }

  // ---------------------------------------------------------------------------
  // Properties
  // ---------------------------------------------------------------------------

  /** Without a `|`, with nothing before the first one, or with nothing after it, the result is empty. */
  lemma EmptyParts(a: Str, b: Str)
    requires '|' !in a
    ensures Decode(a) == Ok([])
    ensures Decode("|" + b) == Ok([])
    ensures Decode(a + "|") == Ok([])
  {
    assert '|' in "|" + b by {
      assert ("|" + b)[0] == '|';
    }
    assert '|' in a + "|" by {
      assert (a + "|")[|a|] == '|';
    }
  }

  /** Splitting text + "|" + bits when the text holds no `|`: the bits are kept whole, whatever they hold. */
  lemma SplitOf(text: Str, bits: Str)
    requires '|' !in text
    ensures Split(text + "|" + bits) == Some((text, bits))
  {
    var s := text + "|" + bits;
    var k := |text|;
    assert s[k] == '|';
    assert Huffman.BarFrom(s, 0) == k by {
      forall j | 0 <= j < k ensures s[j] != '|' {
        assert s[j] == text[j];
      }
    }
    assert s[..k] == text && s[k + 1..] == bits;
  }

  /** `split('|')` in TypeScript stops the bits at a second `|`; `split('|', 1)` keeps them. */
  lemma SplitOnceContrast()
    ensures Huffman.Pieces("a|b|c") == ("a", Some("b"))
    ensures Split("a|b|c") == Some(("a", "b|c"))
  {
    var s := "a|b|c";
    assert Huffman.BarFrom(s, 3) == 3;
    assert Huffman.BarFrom(s, 2) == 3;
    assert Huffman.BarFrom(s, 0) == 1;
    assert s[..1] == "a" && s[2..3] == "b";
    SplitOf("a", "b|c");
    assert "a" + "|" + "b|c" == s;
  }

  /** Decoding text|bits whose table text loads. */
  lemma DecodeOf(text: Str, bits: Str, texts: seq<(Str, Str)>)
    requires '|' !in text && text != [] && bits != []
    requires PyJson.Loads(text) == Ok(texts)
    ensures Decode(text + "|" + bits) ==
      Ok(Huffman.GreedyTo(Huffman.ReverseTable(texts), bits, |bits|).0)
  {
    SplitOf(text, bits);
  }

  /** The text `json.dumps` writes is never empty. */
  lemma DumpsNonEmpty(t: seq<(Str, Str)>)
    ensures PyJson.Dumps(t) != []
  {
  }

  lemma EncodeWith(input: Str, table: Entries<char, Str>)
    requires input != [] && Huffman.Table(input) == table
    ensures Encode(input) == PyJson.Dumps(Huffman.TableText(table)) + "|" + Huffman.PayloadTo(input, table, |input|)
  {
  }

  /** A non-empty input without `|` decompresses to itself. */
  lemma RoundTrip(input: Str)
    requires input != [] && '|' !in input
    ensures Decode(Encode(input)) == Ok(input)
  {
    var table := Huffman.Table(input);
    Huffman.TableFacts(input);
    var texts := Huffman.TableText(table);
    var text := PyJson.Dumps(texts);
    var bits := Huffman.PayloadTo(input, table, |input|);
    forall i | 0 <= i < |input| ensures input[i] in Keys(table) {
      assert input[i] in input;
    }
    Huffman.PayloadBinary(input, table, |input|);
    Huffman.TextAvoids(input, table);
    PyJson.DumpsAvoids(texts);
    DumpsNonEmpty(texts);
    PyJson.LoadsDumps(texts);
    EncodeWith(input, table);
    DecodeOf(text, bits, texts);
    Huffman.TablesOf(table);
    Huffman.PayloadDecodes(input, table, |input|);
    assert input[..|input|] == input;
  }

  /** The demonstration string of the module round-trips. */
  lemma HelloWorld()
    ensures Decode(Encode("hello world")) == Ok("hello world")
  {
    var s := "hello world";
    assert '|' !in s;
    RoundTrip(s);
  }

  // ---------------------------------------------------------------------------
  // A `|` in the input
  // ---------------------------------------------------------------------------

  /** The table text for the input "|" holds a `|`, so `split('|', 1)` cuts it short and `json.loads` raises. */
  lemma BarInInput()
    ensures Encode("|") == "[[\"|\", \"0\"]]|0"
    ensures Decode(Encode("|")) == Err(PyJson.JSONDecodeError)
  {
    EncodeBar();
    BarTextDecode();
  }

  lemma EncodeBar()
    ensures Encode("|") == "[[\"|\", \"0\"]]|0"
  {
    Huffman.SingleSymbolInput("|");
    EncodeWith("|", [('|', "0")]);
    Huffman.SingleText('|');
    BarTableText();
    assert Huffman.PayloadTo("|", [('|', "0")], 1) == "0";
  }

  lemma BarTableText()
    ensures PyJson.Dumps([("|", "0")]) == "[[\"|\", \"0\"]]"
  {
    assert PyJson.Quote("|") == "\"|\"" && PyJson.Quote("0") == "\"0\"";
  }

  lemma BarTextDecode()
    ensures Decode("[[\"|\", \"0\"]]|0") == Err(PyJson.JSONDecodeError)
  {
    var a, b := "[[\"", "\", \"0\"]]|0";
    SplitOf(a, b);
    assert a + "|" + b == "[[\"|\", \"0\"]]|0";
    CutTableFails();
  }

  /** The table text cut at its `|` does not load. */
  lemma CutTableFails()
    ensures PyJson.Loads("[[\"") == Err(PyJson.JSONDecodeError)
  {
    assert PyJson.ParseString("\"") == Err(PyJson.JSONDecodeError);
    assert PyJson.ParsePair("[\"") == Err(PyJson.JSONDecodeError);
  }

  /** A decoder that splits at the last `|` (`rsplit('|', 1)`): the codes are binary, so the text before it is the whole table. */
  function DecodeAtLastBar(input: Str): Result<Str, PyJson.JsonError> {
    match Huffman.LastBar(input, |input|)
    case None => Ok([])
    case Some(k) =>
      var tableStr, compressed := input[..k], input[k + 1..];
      if tableStr == [] || compressed == [] then Ok([])
      else
        var pairs :- PyJson.Loads(tableStr);
        Ok(Huffman.GreedyTo(Huffman.ReverseTable(pairs), compressed, |compressed|).0)
  }

  /** Decoding text|bits at the last `|`, when bits holds none and the table text loads. */
  lemma DecodeAtLastBarOf(text: Str, bits: Str, texts: seq<(Str, Str)>)
    requires '|' !in bits && text != [] && bits != []
    requires PyJson.Loads(text) == Ok(texts)
    ensures DecodeAtLastBar(text + "|" + bits) == Ok(Huffman.GreedyTo(Huffman.ReverseTable(texts), bits, |bits|).0)
  {
    var s := text + "|" + bits;
    Huffman.LastBarOf(text, bits, |s|);
    assert s[..|text|] == text && s[|text| + 1..] == bits;
  }

  /** Splitting at the last `|`, every non-empty input decompresses to itself. */
  lemma RoundTripAnyInput(input: Str)
    requires input != []
    ensures DecodeAtLastBar(Encode(input)) == Ok(input)
  {
    var table := Huffman.Table(input);
    Huffman.TableFacts(input);
    var texts := Huffman.TableText(table);
    var text := PyJson.Dumps(texts);
    var bits := Huffman.PayloadTo(input, table, |input|);
    forall i | 0 <= i < |input| ensures input[i] in Keys(table) {
      assert input[i] in input;
    }
    Huffman.PayloadBinary(input, table, |input|);
    Huffman.BinaryAvoids(bits);
    DumpsNonEmpty(texts);
    PyJson.LoadsDumps(texts);
    EncodeWith(input, table);
    DecodeAtLastBarOf(text, bits, texts);
    Huffman.TablesOf(table);
    Huffman.PayloadDecodes(input, table, |input|);
    assert input[..|input|] == input;
  }
}

/**
 * `HuffmanCompressor.compress` and `decompress`: the frequency table, the
 * text `table|bits` and the greedy decoder.
 *
 * Maps are lists of entries in insertion order (OrderedMap); `for (const
 * char of input)` visits the characters of the input in order.
 */
module Huffman {
  import opened Base
  import opened OrderedMap
  import opened HuffmanTree
  import Json = HuffmanJson

  // ---------------------------------------------------------------------------
  // The frequency table
  // ---------------------------------------------------------------------------

  /** The Map `buildFrequencyTable` holds after the first n characters. */
  function FreqTo(s: Str, n: nat): Entries<char, int>
    requires n <= |s|
  {
    if n == 0 then []
    else
      var m := FreqTo(s, n - 1);
      Set(m, s[n - 1], Get(m, s[n - 1]).GetOr(0) + 1)
  }

  /** `buildFrequencyTable`. */
  method BuildFrequencyTable(input: Str) returns (freq: Entries<char, int>)
    ensures freq == FreqTo(input, |input|)
    ensures Distinct(Keys(freq))
    ensures forall c :: Get(freq, c) == if c in input then Some(multiset(input)[c]) else None
  {
    freq := [];
    for i := 0 to |input|
      invariant freq == FreqTo(input, i)
    {
      freq := Set(freq, input[i], Get(freq, input[i]).GetOr(0) + 1);
    }
    FreqFacts(input, |input|);
    assert input[..|input|] == input;
  }

  /** Each distinct character seen so far has one entry, holding its number of occurrences. */
  lemma {:induction false} FreqFacts(s: Str, n: nat)
    requires n <= |s|
    ensures Distinct(Keys(FreqTo(s, n)))
    ensures forall c :: Get(FreqTo(s, n), c) == if c in s[..n] then Some(multiset(s[..n])[c]) else None
  {
    if n > 0 {
      FreqFacts(s, n - 1);
      var m := FreqTo(s, n - 1);
      var c := s[n - 1];
      FreqStep(m, c);
      var a, b := s[..n - 1], s[..n];
      assert b == a + [c];
      forall d ensures Get(FreqTo(s, n), d) == if d in b then Some(multiset(b)[d]) else None {
        assert multiset(b)[d] == multiset(a)[d] + if d == c then 1 else 0;
        assert d in b <==> d in a || d == c;
      }
    }
  }

  /** One `freq.set(char, (freq.get(char) || 0) + 1)`. */
  lemma FreqStep(m: Entries<char, int>, c: char)
    requires Distinct(Keys(m))
    ensures var r := Set(m, c, Get(m, c).GetOr(0) + 1);
      && Distinct(Keys(r)) && Get(r, c) == Some(Get(m, c).GetOr(0) + 1)
      && forall d :: d != c ==> Get(r, d) == Get(m, d)
  {
    SetFacts(m, c, Get(m, c).GetOr(0) + 1);
    if c !in Keys(m) {
      AppendDistinct(m, c, 1);
    }
  }

  lemma AppendDistinct<V>(m: Entries<char, V>, k: char, v: V)
    requires Distinct(Keys(m)) && k !in Keys(m)
    ensures Distinct(Keys(m + [(k, v)]))
  {
    var r := m + [(k, v)];
    forall i, j | 0 <= i < j < |r| ensures Keys(r)[i] != Keys(r)[j] {
      assert Keys(m)[i] == Keys(r)[i];
      if j < |m| {
        assert Keys(m)[j] == Keys(r)[j];
      }
    }
  }

  lemma {:induction false} WeightUpdate(xs: seq<Node>, i: nat, x: Node)
    requires i < |xs|
    ensures Weight(xs[i := x]) == Weight(xs) - xs[i].freq + x.freq
  {
    if i == 0 {
      assert xs[i := x][1..] == xs[1..];
    } else {
      assert xs[i := x][1..] == xs[1..][i - 1 := x];
      WeightUpdate(xs[1..], i - 1, x);
    }
  }

  /** The leaves' frequencies add up to the number of characters seen. */
  lemma {:induction false} FreqWeight(s: Str, n: nat)
    requires n <= |s|
    ensures Weight(LeafList(FreqTo(s, n))) == n
  {
    if n > 0 {
      FreqWeight(s, n - 1);
      var m := FreqTo(s, n - 1);
      assert FreqTo(s, n) == Set(m, s[n - 1], Get(m, s[n - 1]).GetOr(0) + 1);
      SetWeight(m, s[n - 1]);
    }
  }

  /** Counting one more c adds one to the total. */
  lemma SetWeight(m: Entries<char, int>, c: char)
    ensures Weight(LeafList(Set(m, c, Get(m, c).GetOr(0) + 1))) == Weight(LeafList(m)) + 1
  {
    match Find(m, c)
    case Some(i) =>
      var e := (c, m[i].1 + 1);
      LeafListUpdate(m, i, e);
      WeightUpdate(LeafList(m), i, Leaf(c, m[i].1 + 1));
    case None =>
      var xs := LeafList(m + [(c, 1)]);
      LeafListAppend(m, (c, 1));
      Measures(xs, LeafList(m), [Leaf(c, 1)], c);
      Single(Leaf(c, 1), c);
  }

  lemma LeafListUpdate(m: Entries<char, int>, i: nat, e: (char, int))
    requires i < |m|
    ensures LeafList(m[i := e]) == LeafList(m)[i := Leaf(e.0, e.1)]
  {
  }

  lemma LeafListAppend(m: Entries<char, int>, e: (char, int))
    ensures LeafList(m + [e]) == LeafList(m) + [Leaf(e.0, e.1)]
  {
  }

  /** With distinct keys, each key gives one leaf. */
  lemma {:induction false} LeafCount(m: Entries<char, int>, c: char)
    requires Distinct(Keys(m))
    ensures Count(LeafList(m), c) == if c in Keys(m) then 1 else 0
  {
    if m != [] {
      var xs := LeafList(m);
      assert xs[1..] == LeafList(m[1..]);
      assert Keys(m) == [m[0].0] + Keys(m[1..]);
      LeafCount(m[1..], c);
    }
  }

  // ---------------------------------------------------------------------------
  // The tree and the code table of an input
  // ---------------------------------------------------------------------------

  /** The tree `compress` builds. */
  function Tree(input: Str): Option<Node> {
    BuildTree(LeafList(FreqTo(input, |input|)))
  }

  /** The root weighs as many as the input has characters, and its leaves are the distinct characters, once each. */
  lemma TreeFacts(input: Str)
    requires input != []
    ensures Tree(input).Some?
    ensures var root := Tree(input).value;
      && root.freq == |input| && Weighted(root) && Distinct(Leaves(root))
      && forall c :: c in Leaves(root) <==> c in input
  {
    var freq := FreqTo(input, |input|);
    var xs := LeafList(freq);
    FreqFacts(input, |input|);
    assert input[..|input|] == input;
    assert Get(freq, input[0]).Some?;
    FreqWeight(input, |input|);
    var root := BuildTree(xs).value;
    forall c ensures Occurrences(root, c) == if c in input then 1 else 0 {
      BuildTreeMeasures(xs, c);
      LeafCount(freq, c);
    }
    BuildTreeMeasures(xs, input[0]);
    OnceEachDistinct(root);
    forall c ensures c in Leaves(root) <==> c in input {
      OccursIsLeaf(root, c);
    }
  }

  /** The code table `compress` builds. */
  function Table(input: Str): Entries<char, Str> {
    CodeTable(Tree(input))
  }

  /** A code is non-empty and binary. */
  predicate Codes(t: Entries<char, Str>) {
    forall i :: 0 <= i < |t| ==> t[i].1 != [] && IsBinary(t[i].1)
  }

  /** One entry per distinct character of the input, with non-empty binary prefix-free codes. */
  lemma TableFacts(input: Str)
    requires input != []
    ensures var t := Table(input);
      && Distinct(Keys(t)) && (forall c :: c in Keys(t) <==> c in input)
      && Codes(t) && PrefixFree(t)
  {
    TreeFacts(input);
    var root := Tree(input).value;
    CodeTableIsPaths(root);
    PathsKeys(root, []);
    PathsCodes(root, []);
    PathsPrefixFree(root, []);
  }

  /** An input made of one character repeated gets the table `[[c, "0"]]`. */
  lemma SingleSymbolInput(input: Str)
    requires input != [] && forall i :: 0 <= i < |input| ==> input[i] == input[0]
    ensures Table(input) == [(input[0], "0")]
  {
    ConstantFreq(input, |input|);
    assert LeafList([(input[0], |input|)]) == [Leaf(input[0], |input|)];
    SingleSymbol(input[0], |input|);
  }

  /** The frequency table of one character repeated n times. */
  lemma {:induction false} ConstantFreq(s: Str, n: nat)
    requires 1 <= n <= |s| && forall i :: 0 <= i < |s| ==> s[i] == s[0]
    ensures FreqTo(s, n) == [(s[0], n)]
  {
    if n == 1 {
      assert FreqTo(s, 0) == [];
    } else {
      ConstantFreq(s, n - 1);
      assert Find([(s[0], n - 1)], s[n - 1]) == Some(0);
    }
  }

  // ---------------------------------------------------------------------------
  // Compressing
  // ---------------------------------------------------------------------------

  /** The bits `compressed += codeTable.get(char) || ''` gathers over the first n characters. */
  function PayloadTo(input: Str, table: Entries<char, Str>, n: nat): Str
    requires n <= |input|
  {
    if n == 0 then [] else PayloadTo(input, table, n - 1) + Get(table, input[n - 1]).GetOr([])
  }

  /** `Array.from(codeTable.entries())`: each character as a one-character string. */
  function TableText(t: Entries<char, Str>): (r: seq<(Str, Str)>)
    ensures |r| == |t| && forall i :: 0 <= i < |t| ==> r[i] == ([t[i].0], t[i].1)
  {
    seq(|t|, i requires 0 <= i < |t| => ([t[i].0], t[i].1))
  }

  /** What `compress` returns. */
  function Encode(input: Str): Str {
    if input == [] then []
    else
      var table := Table(input);
      Json.Stringify(TableText(table)) + "|" + PayloadTo(input, table, |input|)
  }

  /** `compress`. */
  method Compress(input: Str) returns (output: Str)
    ensures output == Encode(input)
    ensures input == [] ==> output == []
  {
    if input == [] {
      return [];
    }
    var freq := BuildFrequencyTable(input);
    var tree := BuildHuffmanTree(freq);
    var codeTable := CodeTable(tree);
    var compressed := [];
    for i := 0 to |input|
      invariant compressed == PayloadTo(input, codeTable, i)
    {
      compressed := compressed + Get(codeTable, input[i]).GetOr([]);
    }
    output := Json.Stringify(TableText(codeTable)) + "|" + compressed;
  }

  /** With codes for all the characters, the payload is binary and, unless empty, non-empty. */
  lemma {:induction false} PayloadBinary(input: Str, table: Entries<char, Str>, n: nat)
    requires n <= |input| && Codes(table)
    requires forall i :: 0 <= i < |input| ==> input[i] in Keys(table)
    ensures IsBinary(PayloadTo(input, table, n)) && (n > 0 ==> PayloadTo(input, table, n) != [])
  {
    if n > 0 {
      PayloadBinary(input, table, n - 1);
      var w := Get(table, input[n - 1]).value;
      assert IsBinary(w) && w != [] by {
        var j := Find(table, input[n - 1]).value;
        assert w == table[j].1;
      }
    }
  }

  // ---------------------------------------------------------------------------
  // Decompressing
  // ---------------------------------------------------------------------------

  /** The position of the first `|` at or after i, or the length of s. */
  function BarFrom(s: Str, i: nat): (k: nat)
    requires i <= |s|
    ensures i <= k <= |s| && (k < |s| ==> s[k] == '|') && forall j :: i <= j < k ==> s[j] != '|'
    decreases |s| - i
  {
    if i == |s| || s[i] == '|' then i else BarFrom(s, i + 1)
  }

  /**
   * `const [tableStr, compressed] = input.split('|')`: the text before the
   * first `|`, and the text between it and the next `|` (or the end); the
   * second is `undefined` (None) when there is no `|`.
   */
  function Pieces(s: Str): (Str, Option<Str>) {
    var k := BarFrom(s, 0);
    if k == |s| then (s, None) else (s[..k], Some(s[k + 1..BarFrom(s, k + 1)]))
  }

  /** The entries `codeTable.forEach((code, char) => reverseTable.set(code, char))` sets, in order. */
  function Reverse(t: Entries<Str, Str>): (r: Entries<Str, Str>)
    ensures |r| == |t| && forall i :: 0 <= i < |t| ==> r[i] == (t[i].1, t[i].0)
  {
    seq(|t|, i requires 0 <= i < |t| => (t[i].1, t[i].0))
  }

  /** The pair (decompressed, code) after the loop has read the first n bits. */
  function GreedyTo(rev: Entries<Str, Str>, bits: Str, n: nat): (Str, Str)
    requires n <= |bits|
  {
    if n == 0 then ([], [])
    else
      var state := GreedyTo(rev, bits, n - 1);
      var code := state.1 + [bits[n - 1]];
      match Get(rev, code)
      case Some(v) => (state.0 + v, [])
      case None => (state.0, code)
  }

  /** What `decompress` returns, or the error `JSON.parse` throws. */
  function Decode(input: Str): Result<Str, Json.JsonError> {
    var pieces := Pieces(input);
    if pieces.0 == [] || pieces.1.None? || pieces.1.value == [] then Ok([])
    else
      var pairs :- Json.ParseTable(pieces.0);
      var bits := pieces.1.value;
      Ok(GreedyTo(ReverseTable(pairs), bits, |bits|).0)
  }

  /** `reverseTable` for the parsed entries: they are set into `codeTable`, whose entries are then set swapped. */
  function ReverseTable(pairs: seq<(Str, Str)>): Entries<Str, Str> {
    var codeTable := SetAll([], pairs, |pairs|);
    SetAll([], Reverse(codeTable), |codeTable|)
  }

  /** `decompress`. */
  method Decompress(input: Str) returns (r: Result<Str, Json.JsonError>)
    ensures r == Decode(input)
  {
    var pieces := Pieces(input);
    var tableStr, compressed := pieces.0, pieces.1;
    if tableStr == [] || compressed.None? || compressed.value == [] {
      return Ok([]);
    }
    var parsed := Json.ParseTable(tableStr);
    if parsed.Err? {
      return Err(parsed.error);
    }
    var codeTable := SetAll([], parsed.value, |parsed.value|);
    var reverseTable := SetAll([], Reverse(codeTable), |codeTable|);
    var bits := compressed.value;
    var decompressed, code := [], [];
    for i := 0 to |bits|
      invariant (decompressed, code) == GreedyTo(reverseTable, bits, i)
    {
      code := code + [bits[i]];
      var hit := Get(reverseTable, code);
      if hit.Some? {
        decompressed := decompressed + hit.value;
        code := [];
      }
    }
    r := Ok(decompressed);
  }

  /** Without a `|`, with nothing before the first one, or with nothing after it, the result is empty. */
  lemma EmptyPieces(a: Str, b: Str)
    requires '|' !in a
    ensures Decode(a) == Ok([])
    ensures Decode("|" + b) == Ok([])
    ensures Decode(a + "|") == Ok([])
    ensures Decode(a + "||" + b) == Ok([])
  {
    assert BarFrom(a, 0) == |a|;
    assert BarFrom("|" + b, 0) == 0;
    var s, t := a + "|", a + "||" + b;
    assert s[|a|] == '|' && t[|a|] == '|' && t[|a| + 1] == '|';
    assert BarFrom(s, 0) == |a| by {
      assert forall j :: 0 <= j < |a| ==> s[j] == a[j];
    }
    assert BarFrom(t, 0) == |a| by {
      assert forall j :: 0 <= j < |a| ==> t[j] == a[j];
    }
  }

  // ---------------------------------------------------------------------------
  // The greedy decoder
  // ---------------------------------------------------------------------------

  /** The codes (the keys of the reverse table) are non-empty and none is a prefix of another. */
  predicate PrefixCode(rev: Entries<Str, Str>) {
    && (forall i :: 0 <= i < |rev| ==> rev[i].0 != [])
    && forall i, j {:trigger IsPrefix(rev[i].0, rev[j].0)} ::
      0 <= i < |rev| && 0 <= j < |rev| && i != j ==> !IsPrefix(rev[i].0, rev[j].0)
  }

  /** The decoder's state depends only on the bits it has read. */
  lemma {:induction false} GreedyAgree(rev: Entries<Str, Str>, a: Str, b: Str, n: nat)
    requires n <= |a| && n <= |b| && forall k :: 0 <= k < n ==> a[k] == b[k]
    ensures GreedyTo(rev, a, n) == GreedyTo(rev, b, n)
  {
    if n > 0 {
      GreedyAgree(rev, a, b, n - 1);
    }
  }

  /** The l bits of bits from position n. */
  function Window(bits: Str, n: nat, l: nat): (w: Str)
    requires n + l <= |bits|
    ensures |w| == l && forall k :: 0 <= k < l ==> w[k] == bits[n + k]
  {
    bits[n..n + l]
  }

  /** While no code matches, the decoder only accumulates bits. */
  lemma {:induction false} Accumulates(rev: Entries<Str, Str>, bits: Str, n: nat, out: Str, m: nat)
    requires n + m <= |bits| && GreedyTo(rev, bits, n) == (out, [])
    requires forall l :: 1 <= l <= m ==> Get(rev, Window(bits, n, l)).None?
    ensures GreedyTo(rev, bits, n + m) == (out, Window(bits, n, m))
  {
    if m > 0 {
      Accumulates(rev, bits, n, out, m - 1);
      assert Window(bits, n, m - 1) + [bits[n + m - 1]] == Window(bits, n, m);
    }
  }

  /** Reading a whole code from a reset state emits its symbol and resets again. */
  lemma GreedyThrough(rev: Entries<Str, Str>, bits: Str, n: nat, j: nat, out: Str)
    requires PrefixCode(rev) && j < |rev|
    requires n + |rev[j].0| <= |bits| && Window(bits, n, |rev[j].0|) == rev[j].0
    requires GreedyTo(rev, bits, n) == (out, [])
    ensures GreedyTo(rev, bits, n + |rev[j].0|) == (out + rev[j].1, [])
  {
    var w := rev[j].0;
    var m := |w| - 1;
    forall l | 1 <= l <= m ensures Get(rev, Window(bits, n, l)).None? {
      NotACode(rev, j, Window(bits, n, l));
    }
    Accumulates(rev, bits, n, out, m);
    assert Window(bits, n, m) + [bits[n + m]] == w;
    PrefixCodeDistinct(rev);
    GetAt(rev, j);
  }

  /** A proper prefix of a code is not a code. */
  lemma NotACode(rev: Entries<Str, Str>, j: nat, p: Str)
    requires PrefixCode(rev) && j < |rev| && |p| < |rev[j].0| && IsPrefix(p, rev[j].0)
    ensures Get(rev, p).None?
  {
    forall i | 0 <= i < |rev| ensures Keys(rev)[i] != p {
      if i != j {
        assert !IsPrefix(rev[i].0, rev[j].0);
      }
    }
  }

  lemma PrefixCodeDistinct(rev: Entries<Str, Str>)
    requires PrefixCode(rev)
    ensures Distinct(Keys(rev))
  {
    forall i, k | 0 <= i < k < |rev| ensures Keys(rev)[i] != Keys(rev)[k] {
      assert !IsPrefix(rev[i].0, rev[k].0);
    }
  }

  /** Bits after the last code that match no code are dropped. */
  lemma TrailingBits(rev: Entries<Str, Str>, bits: Str, n: nat, out: Str)
    requires n <= |bits| && GreedyTo(rev, bits, n) == (out, [])
    requires forall l :: 1 <= l <= |bits| - n ==> Get(rev, Window(bits, n, l)).None?
    ensures GreedyTo(rev, bits, |bits|).0 == out
  {
    Accumulates(rev, bits, n, out, |bits| - n);
  }

  /** Appending a code to bits that left the decoder reset emits the code's symbol. */
  lemma GreedyAppend(rev: Entries<Str, Str>, a: Str, j: nat, out: Str)
    requires PrefixCode(rev) && j < |rev| && GreedyTo(rev, a, |a|) == (out, [])
    ensures var b := a + rev[j].0; GreedyTo(rev, b, |b|) == (out + rev[j].1, [])
  {
    var b := a + rev[j].0;
    GreedyAgree(rev, a, b, |a|);
    assert Window(b, |a|, |rev[j].0|) == rev[j].0;
    GreedyThrough(rev, b, |a|, j, out);
  }

  /** Decoding the payload of the first n characters gives them back. */
  lemma {:induction false} PayloadDecodes(input: Str, table: Entries<char, Str>, n: nat)
    requires n <= |input| && PrefixCode(Reverse(TableText(table)))
    requires forall i :: 0 <= i < |input| ==> input[i] in Keys(table)
    ensures var p := PayloadTo(input, table, n); GreedyTo(Reverse(TableText(table)), p, |p|) == (input[..n], [])
  {
    if n == 0 {
      assert input[..0] == [] && PayloadTo(input, table, 0) == [];
    } else {
      PayloadDecodes(input, table, n - 1);
      DecodeStep(input, table, n);
    }
  }

  lemma DecodeStep(input: Str, table: Entries<char, Str>, n: nat)
    requires 0 < n <= |input| && PrefixCode(Reverse(TableText(table))) && input[n - 1] in Keys(table)
    requires var p := PayloadTo(input, table, n - 1);
      GreedyTo(Reverse(TableText(table)), p, |p|) == (input[..n - 1], [])
    ensures var p := PayloadTo(input, table, n); GreedyTo(Reverse(TableText(table)), p, |p|) == (input[..n], [])
  {
    var j := PayloadStep(input, table, n);
    GreedyAppend(Reverse(TableText(table)), PayloadTo(input, table, n - 1), j, input[..n - 1]);
    TakeOneMore(input, n);
  }

  lemma TakeOneMore(s: Str, n: nat)
    requires 0 < n <= |s|
    ensures s[..n - 1] + [s[n - 1]] == s[..n]
  {
  }

  /** The n-th character's code, and the reverse entry that decodes it. */
  lemma PayloadStep(input: Str, table: Entries<char, Str>, n: nat) returns (j: nat)
    requires 0 < n <= |input| && input[n - 1] in Keys(table)
    ensures j < |table|
    ensures var rev := Reverse(TableText(table));
      && PayloadTo(input, table, n) == PayloadTo(input, table, n - 1) + rev[j].0
      && rev[j].1 == [input[n - 1]]
  {
    j := Find(table, input[n - 1]).value;
  }

  // ---------------------------------------------------------------------------
  // The round trip
  // ---------------------------------------------------------------------------

  /** `split('|')` of text + "|" + bits when neither part holds a `|`. */
  lemma PiecesOf(text: Str, bits: Str)
    requires '|' !in text && '|' !in bits
    ensures Pieces(text + "|" + bits) == (text, Some(bits))
  {
    var s := text + "|" + bits;
    var k := |text|;
    assert s[k] == '|';
    assert BarFrom(s, 0) == k by {
      forall j | 0 <= j < k ensures s[j] != '|' {
        assert s[j] == text[j];
      }
    }
    assert BarFrom(s, k + 1) == |s| by {
      forall j | k + 1 <= j < |s| ensures s[j] != '|' {
        assert s[j] == bits[j - k - 1];
      }
    }
    assert s[..k] == text && s[k + 1..|s|] == bits;
  }

  /** The text of the table does not start with nothing. */
  lemma StringifyNonEmpty(t: seq<(Str, Str)>)
    ensures Json.Stringify(t) != []
  {
  }

  /** new Map(entries) and the reverse table built from a code table with distinct keys and prefix-free non-empty codes. */
  lemma TablesOf(table: Entries<char, Str>)
    requires Distinct(Keys(table)) && Codes(table) && PrefixFree(table)
    ensures var texts := TableText(table); var rev := Reverse(texts);
      && SetAll([], texts, |texts|) == texts
      && PrefixCode(rev) && SetAll([], rev, |rev|) == rev
  {
    var texts := TableText(table);
    var rev := Reverse(texts);
    assert Distinct(Keys(texts)) by {
      forall i, j | 0 <= i < j < |texts| ensures Keys(texts)[i] != Keys(texts)[j] {
        assert Keys(table)[i] != Keys(table)[j];
      }
    }
    SetAllFresh(texts, |texts|);
    assert texts[..|texts|] == texts;
    assert forall i :: 0 <= i < |rev| ==> rev[i].0 == table[i].1;
    PrefixCodeDistinct(rev);
    SetAllFresh(rev, |rev|);
    assert rev[..|rev|] == rev;
  }

  /** Decoding text|bits whose table text parses. */
  lemma DecodeOf(text: Str, bits: Str, texts: seq<(Str, Str)>)
    requires '|' !in text && '|' !in bits && text != [] && bits != []
    requires Json.ParseTable(text) == Ok(texts)
    ensures Decode(text + "|" + bits) ==
      Ok(GreedyTo(ReverseTable(texts), bits, |bits|).0)
  {
    PiecesOf(text, bits);
  }

  /** A non-empty input without `|` decompresses to itself. */
  lemma RoundTrip(input: Str)
    requires input != [] && '|' !in input
    ensures Decode(Encode(input)) == Ok(input)
  {
    var table := Table(input);
    TableFacts(input);
    var texts := TableText(table);
    var text := Json.Stringify(texts);
    var bits := PayloadTo(input, table, |input|);
    forall i | 0 <= i < |input| ensures input[i] in Keys(table) {
      assert input[i] in input;
    }
    PayloadBinary(input, table, |input|);
    BinaryAvoids(bits);
    TextAvoids(input, table);
    Json.StringifyAvoids(texts);
    StringifyNonEmpty(texts);
    Json.TableRoundTrip(texts);
    DecodeOf(text, bits, texts);
    TablesOf(table);
    PayloadDecodes(input, table, |input|);
    assert input[..|input|] == input;
  }

  lemma BinaryAvoids(s: Str)
    requires IsBinary(s)
    ensures '|' !in s
  {
    forall k | 0 <= k < |s| ensures s[k] != '|' {
    }
  }

  /** The strings of the table text of an input without `|` have no `|`. */
  lemma TextAvoids(input: Str, table: Entries<char, Str>)
    requires '|' !in input && Codes(table) && forall c :: c in Keys(table) ==> c in input
    ensures Json.Avoids(TableText(table), '|')
  {
    var texts := TableText(table);
    forall i | 0 <= i < |texts| ensures '|' !in texts[i].0 && '|' !in texts[i].1 {
      assert Keys(table)[i] == table[i].0;
      BinaryAvoids(table[i].1);
    }
  }

  // ---------------------------------------------------------------------------
  // A `|` in the input
  // ---------------------------------------------------------------------------

  /** The text of the table for the input "|" holds a `|`, so `split('|')` cuts it short and `JSON.parse` throws. */
  lemma BarInInput()
    ensures Encode("|") == "[[\"|\",\"0\"]]|0"
    ensures Decode(Encode("|")) == Err(Json.SyntaxError)
  {
    EncodeBar();
    BarTextDecode();
  }

  lemma EncodeBar()
    ensures Encode("|") == "[[\"|\",\"0\"]]|0"
  {
    SingleSymbolEncode("|");
    BarTableText();
    assert PayloadTo("|", [('|', "0")], 1) == "0";
  }

  /** What `compress` returns for one character repeated. */
  lemma SingleSymbolEncode(input: Str)
    requires input != [] && forall i :: 0 <= i < |input| ==> input[i] == input[0]
    ensures var table := [(input[0], "0")];
      Encode(input) == Json.Stringify([([input[0]], "0")]) + "|" + PayloadTo(input, table, |input|)
  {
    SingleSymbolInput(input);
    EncodeWith(input, [(input[0], "0")]);
    SingleText(input[0]);
  }

  lemma EncodeWith(input: Str, table: Entries<char, Str>)
    requires input != [] && Table(input) == table
    ensures Encode(input) == Json.Stringify(TableText(table)) + "|" + PayloadTo(input, table, |input|)
  {
  }

  lemma SingleText(c: char)
    ensures TableText([(c, "0")]) == [([c], "0")]
  {
    var texts := TableText([(c, "0")]);
    assert |texts| == 1 && texts[0] == ([c], "0");
  }

  lemma BarTableText()
    ensures Json.Stringify([("|", "0")]) == "[[\"|\",\"0\"]]"
  {
    assert Json.Quote("|") == "\"|\"" && Json.Quote("0") == "\"0\"";
  }

  lemma BarTextDecode()
    ensures Decode("[[\"|\",\"0\"]]|0") == Err(Json.SyntaxError)
  {
    var s := "[[\"|\",\"0\"]]|0";
    assert BarFrom(s, 3) == 3;
    assert BarFrom(s, 0) == 3;
    assert Pieces(s).0 == "[[\"";
    assert Json.ParseString("\"") == Err(Json.SyntaxError);
    assert Json.ParsePair("[\"") == Err(Json.SyntaxError);
  }

  /** The position of the last `|` before k, if any. */
  function LastBar(s: Str, k: nat): (r: Option<nat>)
    requires k <= |s|
    ensures r.Some? ==> r.value < k && s[r.value] == '|' && forall j :: r.value < j < k ==> s[j] != '|'
    ensures r.None? ==> forall j :: 0 <= j < k ==> s[j] != '|'
  {
    if k == 0 then None else if s[k - 1] == '|' then Some(k - 1) else LastBar(s, k - 1)
  }

  /** A decoder that splits at the last `|`: the codes are binary, so the text before it is the whole table. */
  function DecodeAtLastBar(input: Str): Result<Str, Json.JsonError> {
    match LastBar(input, |input|)
    case None => Ok([])
    case Some(k) =>
      var text, bits := input[..k], input[k + 1..];
      if text == [] || bits == [] then Ok([])
      else
        var pairs :- Json.ParseTable(text);
        Ok(GreedyTo(ReverseTable(pairs), bits, |bits|).0)
  }

  /** The last `|` of text + "|" + bits is the one between them when bits holds none. */
  lemma {:induction false} LastBarOf(text: Str, bits: Str, k: nat)
    requires '|' !in bits && |text| < k <= |text| + 1 + |bits|
    ensures LastBar(text + "|" + bits, k) == Some(|text|)
    decreases k
  {
    var s := text + "|" + bits;
    if k > |text| + 1 {
      assert s[k - 1] == bits[k - 2 - |text|];
      LastBarOf(text, bits, k - 1);
    } else {
      assert s[k - 1] == '|';
    }
  }

  /** Decoding text|bits at the last `|`, when bits holds none and the table text parses. */
  lemma DecodeAtLastBarOf(text: Str, bits: Str, texts: seq<(Str, Str)>)
    requires '|' !in bits && text != [] && bits != []
    requires Json.ParseTable(text) == Ok(texts)
    ensures DecodeAtLastBar(text + "|" + bits) == Ok(GreedyTo(ReverseTable(texts), bits, |bits|).0)
  {
    var s := text + "|" + bits;
    LastBarOf(text, bits, |s|);
    assert s[..|text|] == text && s[|text| + 1..] == bits;
  }

  /** Splitting at the last `|`, every non-empty input decompresses to itself. */
  lemma RoundTripAnyInput(input: Str)
    requires input != []
    ensures DecodeAtLastBar(Encode(input)) == Ok(input)
  {
    var table := Table(input);
    TableFacts(input);
    var texts := TableText(table);
    var text := Json.Stringify(texts);
    var bits := PayloadTo(input, table, |input|);
    forall i | 0 <= i < |input| ensures input[i] in Keys(table) {
      assert input[i] in input;
    }
    PayloadBinary(input, table, |input|);
    BinaryAvoids(bits);
    StringifyNonEmpty(texts);
    Json.TableRoundTrip(texts);
    DecodeAtLastBarOf(text, bits, texts);
    TablesOf(table);
    PayloadDecodes(input, table, |input|);
    assert input[..|input|] == input;
  }
}

/**
 * The text of the Huffman code table in the Python port:
 * `json.dumps(list(code_table.items()))` when compressing and
 * `json.loads(table_str)` when decompressing.
 *
 * `json.dumps` with its default settings separates items with ", " and keeps
 * only printable ASCII as it is (`ensure_ascii`): `"` and `\` are escaped,
 * backspace, tab, line feed, form feed and carriage return get their short
 * escapes, every other character a lower-case `\uXXXX`, and a character beyond
 * U+FFFF the `\uXXXX\uXXXX` of its surrogate pair.  Loads reads an array of
 * two-string arrays with white space between the tokens, accepting every escape
 * JSON allows; a surrogate pair is read as one character.
 */
module PyJson {
  import opened Base
  import HuffmanJson

  type Str = seq<char>

  /** `json.loads` raises `json.JSONDecodeError`. */
  datatype JsonError = JSONDecodeError

  // ---------------------------------------------------------------------------
  // Writing
  // ---------------------------------------------------------------------------

  /** The characters `json.dumps` writes as they are: printable ASCII except `"` and `\`. */
  predicate Plain(c: char) {
    ' ' <= c <= '~' && c != '"' && c != '\\'
  }

  /** Four lower-case hexadecimal digits, `'{0:04x}'.format(v)`. */
  function Hex4(v: nat): (r: Str)
    requires v < 0x1_0000
    ensures |r| == 4
  {
    [HuffmanJson.HexDigit(v / 0x1000), HuffmanJson.HexDigit(v / 0x100 % 16),
     HuffmanJson.HexDigit(v / 16 % 16), HuffmanJson.HexDigit(v % 16)]
  }

  /** What follows the backslash in the escape of a character that is not plain. */
  function EscapeCode(c: char): Str {
    if c == '"' then "\""
    else if c == '\\' then "\\"
    else if c == '\U{8}' then "b"
    else if c == '\t' then "t"
    else if c == '\n' then "n"
    else if c == '\U{C}' then "f"
    else if c == '\r' then "r"
    else if c as int < 0x1_0000 then "u" + Hex4(c as int)
    else
      // 0xd800 | ((n >> 10) & 0x3ff) and 0xdc00 | (n & 0x3ff), for n below 2^20
      var n := c as int - 0x1_0000;
      "u" + Hex4(0xD800 + n / 0x400) + "\\u" + Hex4(0xDC00 + n % 0x400)
  }

  /** How `json.dumps` writes one character of a string. */
  function EscapeChar(c: char): Str {
    if Plain(c) then [c] else ['\\'] + EscapeCode(c)
  }

  function Escape(s: Str): Str {
    if s == [] then [] else EscapeChar(s[0]) + Escape(s[1..])
  }

  /** A JSON string literal. */
  function Quote(s: Str): Str {
    "\"" + Escape(s) + "\""
  }

  /** One entry `[key, value]`, with the item separator ", ". */
  function Pair(e: (Str, Str)): Str {
    "[" + Quote(e.0) + ", " + Quote(e.1) + "]"
  }

  /** `json.dumps` of the list of entries. */
  function Dumps(t: seq<(Str, Str)>): Str {
    if t == [] then "[]" else "[" + Pair(t[0]) + Rest(t[1..])
  }

  /** The entries after the first, each after ", ", and the closing bracket. */
  function Rest(t: seq<(Str, Str)>): Str {
    if t == [] then "]" else ", " + Pair(t[0]) + Rest(t[1..])
  }

  // ---------------------------------------------------------------------------
  // Reading
  // ---------------------------------------------------------------------------

  /** JSON white space. */
  predicate IsWs(c: char) {
    c == ' ' || c == '\t' || c == '\n' || c == '\r'
  }

  /** The text after the white space at the start of s. */
  function SkipWs(s: Str): (r: Str)
    ensures |r| <= |s|
  {
    if s != [] && IsWs(s[0]) then SkipWs(s[1..]) else s
  }

  /**
   * The character an escape stands for (s starts after the backslash), and the
   * text after it.  A high surrogate followed by the escape of a low one is
   * one character; any other surrogate is an error, since a string holding it
   * has no representation here.
   */
  function ParseEscape(s: Str): (r: Result<(char, Str), JsonError>)
    ensures r.Ok? ==> |r.value.1| < |s|
  {
    if s == [] then Err(JSONDecodeError)
    else if s[0] == '"' || s[0] == '\\' || s[0] == '/' then Ok((s[0], s[1..]))
    else if s[0] == 'b' then Ok(('\U{8}', s[1..]))
    else if s[0] == 'f' then Ok(('\U{C}', s[1..]))
    else if s[0] == 'n' then Ok(('\n', s[1..]))
    else if s[0] == 'r' then Ok(('\r', s[1..]))
    else if s[0] == 't' then Ok(('\t', s[1..]))
    else if s[0] == 'u' && |s| >= 5 then
      match HuffmanJson.Hex4Value(s[1], s[2], s[3], s[4])
      case None => Err(JSONDecodeError)
      case Some(v) =>
        if 0xD800 <= v < 0xDC00 && |s| >= 11 && s[5] == '\\' && s[6] == 'u' then
          match HuffmanJson.Hex4Value(s[7], s[8], s[9], s[10])
          case None => Err(JSONDecodeError)
          case Some(w) =>
            if 0xDC00 <= w < 0xE000 then Ok((HuffmanJson.Combine(v, w), s[11..])) else Err(JSONDecodeError)
        else if 0xD800 <= v < 0xE000 then Err(JSONDecodeError)
        else Ok((v as char, s[5..]))
    else Err(JSONDecodeError)
  }

  /** c in front of the string a successful parse read. */
  function Cons(c: char, r: Result<(Str, Str), JsonError>): Result<(Str, Str), JsonError> {
    match r
    case Ok((t, rest)) => Ok(([c] + t, rest))
    case Err(e) => Err(e)
  }

  /** The characters of a string literal up to its closing quote (s starts after the opening one), and the text after it. */
  function ParseChars(s: Str): (r: Result<(Str, Str), JsonError>)
    ensures r.Ok? ==> |r.value.1| < |s|
    decreases |s|
  {
    if s == [] then Err(JSONDecodeError)
    else if s[0] == '"' then Ok(([], s[1..]))
    else if s[0] == '\\' then
      var e := ParseEscape(s[1..]);
      if e.Err? then Err(JSONDecodeError) else Cons(e.value.0, ParseChars(e.value.1))
    else if s[0] < ' ' then Err(JSONDecodeError)
    else Cons(s[0], ParseChars(s[1..]))
  }

  function ParseString(s: Str): (r: Result<(Str, Str), JsonError>)
    ensures r.Ok? ==> |r.value.1| < |s|
  {
    if s != [] && s[0] == '"' then ParseChars(s[1..]) else Err(JSONDecodeError)
  }

  /** The text after a leading c, once the white space before it is skipped. */
  function Expect(s: Str, c: char): (r: Result<Str, JsonError>)
    ensures r.Ok? ==> |r.value| < |s|
  {
    var t := SkipWs(s);
    if t != [] && t[0] == c then Ok(t[1..]) else Err(JSONDecodeError)
  }

  /** One entry, a two-string array, with white space allowed around its tokens. */
  function ParsePair(s: Str): (r: Result<((Str, Str), Str), JsonError>)
    ensures r.Ok? ==> |r.value.1| < |s|
  {
    var a :- Expect(s, '[');
    var k :- ParseString(SkipWs(a));
    var b :- Expect(k.1, ',');
    var v :- ParseString(SkipWs(b));
    var rest :- Expect(v.1, ']');
    Ok(((k.0, v.0), rest))
  }

  /** The entries after the first, each after a comma, up to the closing bracket. */
  function ParseRest(s: Str): (r: Result<(seq<(Str, Str)>, Str), JsonError>)
    decreases |s|
  {
    var t := SkipWs(s);
    if t != [] && t[0] == ']' then Ok(([], t[1..]))
    else if t != [] && t[0] == ',' then
      var p :- ParsePair(t[1..]);
      var m :- ParseRest(p.1);
      Ok(([p.0] + m.0, m.1))
    else Err(JSONDecodeError)
  }

  /** `json.loads` of an array of `[key, value]` string pairs; anything but white space after the array is an error. */
  function Loads(s: Str): Result<seq<(Str, Str)>, JsonError> {
    var a :- Expect(s, '[');
    var b := SkipWs(a);
    if b != [] && b[0] == ']' then
      if SkipWs(b[1..]) == [] then Ok([]) else Err(JSONDecodeError)
    else
      var p :- ParsePair(b);
      var m :- ParseRest(p.1);
      if SkipWs(m.1) == [] then Ok([p.0] + m.0) else Err(JSONDecodeError)
  }

  // ---------------------------------------------------------------------------
  // Reading what was written
  // ---------------------------------------------------------------------------

  lemma Hex4RoundTrip(v: nat)
    requires v < 0x1_0000
    ensures var h := Hex4(v); HuffmanJson.Hex4Value(h[0], h[1], h[2], h[3]) == Some(v)
  {
    var a, b, c, d := v / 0x1000, v / 0x100 % 16, v / 16 % 16, v % 16;
    HuffmanJson.HexRoundTrip(a);
    HuffmanJson.HexRoundTrip(b);
    HuffmanJson.HexRoundTrip(c);
    HuffmanJson.HexRoundTrip(d);
    assert v / 0x100 == a * 16 + b;
    assert v / 16 == (a * 16 + b) * 16 + c;
  }

  /** Reading the escape of a character that is not plain gives back the character. */
  lemma EscapeStep(c: char, rest: Str)
    requires !Plain(c)
    ensures ParseEscape(EscapeCode(c) + rest) == Ok((c, rest))
  {
    var s := EscapeCode(c) + rest;
    if c == '"' || c == '\\' || c == '\U{8}' || c == '\t' || c == '\n' || c == '\U{C}' || c == '\r' {
    } else if c as int < 0x1_0000 {
      Hex4RoundTrip(c as int);
      assert s[1..5] == Hex4(c as int) && s[5..] == rest;
    } else {
      PairStep(c, rest);
    }
  }

  /** A character beyond U+FFFF is read back from the escapes of its surrogate pair. */
  lemma PairStep(c: char, rest: Str)
    requires c as int >= 0x1_0000
    ensures ParseEscape(EscapeCode(c) + rest) == Ok((c, rest))
  {
    var hi, lo := Surrogates(c);
    Hex4RoundTrip(hi);
    Hex4RoundTrip(lo);
    SurrogateText(Hex4(hi), Hex4(lo), rest, hi, lo);
  }

  /** The surrogate pair `json.dumps` writes for a character beyond U+FFFF. */
  lemma Surrogates(c: char) returns (hi: nat, lo: nat)
    requires c as int >= 0x1_0000
    ensures 0xD800 <= hi < 0xDC00 && 0xDC00 <= lo < 0xE000 && HuffmanJson.Combine(hi, lo) == c
    ensures EscapeCode(c) == "u" + Hex4(hi) + "\\u" + Hex4(lo)
  {
    var n := c as int - 0x1_0000;
    hi, lo := 0xD800 + n / 0x400, 0xDC00 + n % 0x400;
    assert n == n / 0x400 * 0x400 + n % 0x400;
  }

  /** Reading `u` and four digits of a high surrogate, then `\u` and four of a low one. */
  lemma SurrogateText(h: Str, l: Str, rest: Str, hi: nat, lo: nat)
    requires |h| == 4 && HuffmanJson.Hex4Value(h[0], h[1], h[2], h[3]) == Some(hi) && 0xD800 <= hi < 0xDC00
    requires |l| == 4 && HuffmanJson.Hex4Value(l[0], l[1], l[2], l[3]) == Some(lo) && 0xDC00 <= lo < 0xE000
    ensures ParseEscape("u" + h + "\\u" + l + rest) == Ok((HuffmanJson.Combine(hi, lo), rest))
  {
    var s := "u" + h + "\\u" + l + rest;
    assert s[1] == h[0] && s[2] == h[1] && s[3] == h[2] && s[4] == h[3];
    assert s[5] == '\\' && s[6] == 'u';
    assert s[7] == l[0] && s[8] == l[1] && s[9] == l[2] && s[10] == l[3];
    assert s[11..] == rest;
  }

  /** Reading the escape of c gives back c. */
  lemma CharStep(c: char, rest: Str)
    ensures ParseChars(EscapeChar(c) + rest) == Cons(c, ParseChars(rest))
  {
    var s := EscapeChar(c) + rest;
    if Plain(c) {
      assert s[0] == c && s[1..] == rest;
    } else {
      assert s[0] == '\\' && s[1..] == EscapeCode(c) + rest;
      EscapeStep(c, rest);
    }
  }

  lemma {:induction false} CharsRoundTrip(x: Str, rest: Str)
    ensures ParseChars(Escape(x) + "\"" + rest) == Ok((x, rest))
  {
    if x == [] {
      assert Escape(x) + "\"" + rest == ['"'] + rest;
    } else {
      var tail := Escape(x[1..]) + "\"" + rest;
      assert Escape(x) + "\"" + rest == EscapeChar(x[0]) + tail;
      CharStep(x[0], tail);
      CharsRoundTrip(x[1..], rest);
      assert [x[0]] + x[1..] == x;
    }
  }

  lemma StringRoundTrip(x: Str, rest: Str)
    ensures ParseString(Quote(x) + rest) == Ok((x, rest))
  {
    assert (Quote(x) + rest)[1..] == Escape(x) + "\"" + rest;
    CharsRoundTrip(x, rest);
  }

  /** Text that starts with no white space is left as it is. */
  lemma SkipNone(s: Str)
    requires s != [] && !IsWs(s[0])
    ensures SkipWs(s) == s
  {
  }

  lemma PairRoundTrip(e: (Str, Str), rest: Str)
    ensures ParsePair(Pair(e) + rest) == Ok((e, rest))
  {
    var s := Pair(e) + rest;
    var c := "]" + rest;
    var b := Quote(e.1) + c;
    var a := Quote(e.0) + (", " + b);
    PairText(e, rest);
    SkipNone(s);
    assert Expect(s, '[') == Ok(a);
    SkipNone(a);
    StringRoundTrip(e.0, ", " + b);
    SkipNone(", " + b);
    assert (", " + b)[1..] == " " + b;
    assert Expect(", " + b, ',') == Ok(" " + b);
    SkipNone(b);
    SpaceSkipped(b);
    StringRoundTrip(e.1, c);
    SkipNone(c);
    assert Expect(c, ']') == Ok(rest);
  }

  lemma PairText(e: (Str, Str), rest: Str)
    ensures Pair(e) + rest == "[" + (Quote(e.0) + (", " + (Quote(e.1) + ("]" + rest))))
  {
  }

  lemma {:induction false} RestRoundTrip(t: seq<(Str, Str)>, rest: Str)
    ensures ParseRest(Rest(t) + rest) == Ok((t, rest))
  {
    if t == [] {
      SkipNone(Rest(t) + rest);
      assert (Rest(t) + rest)[1..] == rest;
    } else {
      var tail := Rest(t[1..]) + rest;
      RestText(t, rest);
      PairRoundTrip(t[0], tail);
      RestRoundTrip(t[1..], rest);
      RestStep(Pair(t[0]) + tail, t[0], tail, t[1..], rest);
      assert [t[0]] + t[1..] == t;
    }
  }

  lemma RestText(t: seq<(Str, Str)>, rest: Str)
    requires t != []
    ensures Rest(t) + rest == ", " + (Pair(t[0]) + (Rest(t[1..]) + rest))
  {
  }

  /** ParseRest after ", " whose entry and the rest both parsed. */
  lemma RestStep(s: Str, p: (Str, Str), tail: Str, ps: seq<(Str, Str)>, rest: Str)
    requires ParsePair(s) == Ok((p, tail)) && ParseRest(tail) == Ok((ps, rest))
    ensures ParseRest(", " + s) == Ok(([p] + ps, rest))
  {
    var u := ", " + s;
    SkipNone(u);
    assert u[0] == ',' && u[1..] == " " + s;
    PairAfterSpace(s);
  }

  lemma SpaceSkipped(s: Str)
    ensures SkipWs(" " + s) == SkipWs(s)
  {
    assert (" " + s)[1..] == s;
  }

  lemma PairAfterSpace(s: Str)
    ensures ParsePair(" " + s) == ParsePair(s)
  {
    SpaceSkipped(s);
    assert Expect(" " + s, '[') == Expect(s, '[');
  }

  /** Loading the text of a table gives back the table. */
  lemma LoadsDumps(t: seq<(Str, Str)>)
    ensures Loads(Dumps(t)) == Ok(t)
  {
    if t == [] {
      assert Expect("[]", '[') == Ok("]");
      assert "]"[1..] == [];
    } else {
      var tail := Rest(t[1..]);
      var a := Pair(t[0]) + tail;
      assert Dumps(t) == "[" + a;
      PairRoundTrip(t[0], tail);
      RestRoundTrip(t[1..], []);
      assert tail + [] == tail;
      LoadsStep(a, t[0], tail, t[1..]);
      assert [t[0]] + t[1..] == t;
    }
  }

  /** Loads on an array whose first entry and the rest both parsed. */
  lemma LoadsStep(a: Str, p: (Str, Str), tail: Str, ps: seq<(Str, Str)>)
    requires a != [] && a[0] == '['
    requires ParsePair(a) == Ok((p, tail)) && ParseRest(tail) == Ok((ps, []))
    ensures Loads("[" + a) == Ok([p] + ps)
  {
    SkipNone("[" + a);
    assert ("[" + a)[1..] == a;
    SkipNone(a);
  }

  // ---------------------------------------------------------------------------
  // What the text holds
  // ---------------------------------------------------------------------------

  /** Every character of s is ASCII. */
  predicate Ascii(s: Str) {
    forall k :: 0 <= k < |s| ==> s[k] as int < 0x80
  }

  lemma AsciiAppend(a: Str, b: Str)
    requires Ascii(a) && Ascii(b)
    ensures Ascii(a + b)
  {
    forall k | 0 <= k < |a + b| ensures (a + b)[k] as int < 0x80 {
      if k >= |a| {
        assert (a + b)[k] == b[k - |a|];
      }
    }
  }

  lemma Hex4Ascii(v: nat)
    requires v < 0x1_0000
    ensures Ascii(Hex4(v))
  {
  }

  /** `\u` escapes are ASCII. */
  lemma CodeAscii(v: nat)
    requires v < 0x1_0000
    ensures Ascii("u" + Hex4(v)) && Ascii("\\u" + Hex4(v))
  {
    Hex4Ascii(v);
    AsciiAppend("u", Hex4(v));
    AsciiAppend("\\u", Hex4(v));
  }

  lemma EscapeCodeAscii(c: char)
    ensures Ascii(EscapeCode(c))
  {
    if c as int >= 0x1_0000 {
      var n := c as int - 0x1_0000;
      var h, l := "u" + Hex4(0xD800 + n / 0x400), "\\u" + Hex4(0xDC00 + n % 0x400);
      CodeAscii(0xD800 + n / 0x400);
      CodeAscii(0xDC00 + n % 0x400);
      AsciiAppend(h, l);
      assert EscapeCode(c) == h + l;
    } else if c as int >= 0x80 {
      CodeAscii(c as int);
    }
  }

  /** `ensure_ascii`: the escape of any character is ASCII. */
  lemma EscapeCharAscii(c: char)
    ensures Ascii(EscapeChar(c))
  {
    if !Plain(c) {
      EscapeCodeAscii(c);
      AsciiAppend(['\\'], EscapeCode(c));
    }
  }

  lemma {:induction false} EscapeAscii(x: Str)
    ensures Ascii(Escape(x))
  {
    if x != [] {
      EscapeCharAscii(x[0]);
      EscapeAscii(x[1..]);
      AsciiAppend(EscapeChar(x[0]), Escape(x[1..]));
    }
  }

  lemma QuoteAscii(x: Str)
    ensures Ascii(Quote(x))
  {
    EscapeAscii(x);
    AsciiAppend("\"", Escape(x));
    AsciiAppend("\"" + Escape(x), "\"");
  }

  lemma PairAscii(e: (Str, Str))
    ensures Ascii(Pair(e))
  {
    var q0, q1 := Quote(e.0), Quote(e.1);
    QuoteAscii(e.0);
    QuoteAscii(e.1);
    var a := "[" + q0;
    AsciiAppend("[", q0);
    var b := a + ", ";
    AsciiAppend(a, ", ");
    var c := b + q1;
    AsciiAppend(b, q1);
    AsciiAppend(c, "]");
    assert Pair(e) == c + "]";
  }

  lemma {:induction false} RestAscii(t: seq<(Str, Str)>)
    ensures Ascii(Rest(t))
  {
    if t != [] {
      PairAscii(t[0]);
      RestAscii(t[1..]);
      AsciiAppend(", ", Pair(t[0]));
      AsciiAppend(", " + Pair(t[0]), Rest(t[1..]));
    }
  }

  /** The text `json.dumps` writes holds ASCII only, whatever the strings of the table. */
  lemma DumpsAscii(t: seq<(Str, Str)>)
    ensures Ascii(Dumps(t))
  {
    if t != [] {
      PairAscii(t[0]);
      RestAscii(t[1..]);
      AsciiAppend("[", Pair(t[0]));
      AsciiAppend("[" + Pair(t[0]), Rest(t[1..]));
    }
  }

  /** Hexadecimal digits are not `|`. */
  lemma Hex4Avoids(v: nat)
    requires v < 0x1_0000
    ensures '|' !in Hex4(v)
  {
  }

  /** The escape of a character other than `|` holds no `|`. */
  lemma EscapeCharAvoids(c: char)
    requires c != '|'
    ensures '|' !in EscapeChar(c)
  {
    if !Plain(c) && c as int >= 0x1_0000 {
      var n := c as int - 0x1_0000;
      var h, l := Hex4(0xD800 + n / 0x400), Hex4(0xDC00 + n % 0x400);
      Hex4Avoids(0xD800 + n / 0x400);
      Hex4Avoids(0xDC00 + n % 0x400);
      assert EscapeChar(c) == "\\u" + h + "\\u" + l;
    } else if !Plain(c) && c as int >= 0x80 {
      Hex4Avoids(c as int);
      assert EscapeChar(c) == "\\u" + Hex4(c as int);
    }
  }

  lemma {:induction false} EscapeAvoids(x: Str)
    requires '|' !in x
    ensures '|' !in Escape(x)
  {
    if x != [] {
      assert x[0] in x;
      EscapeCharAvoids(x[0]);
      EscapeAvoids(x[1..]);
    }
  }

  lemma PairAvoids(e: (Str, Str))
    requires '|' !in e.0 && '|' !in e.1
    ensures '|' !in Pair(e)
  {
    EscapeAvoids(e.0);
    EscapeAvoids(e.1);
  }

  lemma {:induction false} RestAvoids(t: seq<(Str, Str)>)
    requires HuffmanJson.Avoids(t, '|')
    ensures '|' !in Rest(t)
  {
    if t != [] {
      PairAvoids(t[0]);
      RestAvoids(t[1..]);
    }
  }

  /** The text of a table whose strings have no `|` has none either. */
  lemma DumpsAvoids(t: seq<(Str, Str)>)
    requires HuffmanJson.Avoids(t, '|')
    ensures '|' !in Dumps(t)
  {
    if t != [] {
      PairAvoids(t[0]);
      RestAvoids(t[1..]);
    }
  }
}

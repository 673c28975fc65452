/**
 * The text of the Huffman code table: `JSON.stringify(Array.from(codeTable.entries()))`
 * when compressing and `JSON.parse(tableStr)` when decompressing.
 *
 * The table is an array of two-element arrays of strings.  Stringify writes
 * it the way `JSON.stringify` does (no white space; in a string, `"` and `\`
 * are escaped, the control characters backspace, tab, line feed, form feed and
 * carriage return get their short escapes and the other characters below
 * U+0020 a lower-case `\u00xx`); ParseTable reads that grammar back,
 * with every escape JSON allows.  The escapes of a high and a low surrogate in
 * a row are one character; a surrogate on its own cannot be held in a string
 * here and is an error.
 */
module HuffmanJson {
  import opened Base

  type Str = seq<char>

  /** `JSON.parse` throws a SyntaxError. */
  datatype JsonError = SyntaxError

  /** A lower-case hexadecimal digit. */
  function HexDigit(d: nat): (c: char)
    requires d < 16
  {
    if d < 10 then ('0' as int + d) as char else ('a' as int + d - 10) as char
  }

  /** The value of a hexadecimal digit of either case. */
  function HexValue(c: char): (r: Option<nat>)
    ensures r.Some? ==> r.value < 16
  {
    if '0' <= c <= '9' then Some(c as int - '0' as int)
    else if 'a' <= c <= 'f' then Some(c as int - 'a' as int + 10)
    else if 'A' <= c <= 'F' then Some(c as int - 'A' as int + 10)
    else None
  }

  /** The value of four hexadecimal digits of either case. */
  function Hex4Value(a: char, b: char, c: char, d: char): (r: Option<nat>)
    ensures r.Some? ==> r.value < 0x1_0000
  {
    match (HexValue(a), HexValue(b), HexValue(c), HexValue(d))
    case (Some(w), Some(x), Some(y), Some(z)) => Some(((w * 16 + x) * 16 + y) * 16 + z)
    case _ => None
  }

  /** The character of a surrogate pair: a high surrogate, then a low one. */
  function Combine(hi: nat, lo: nat): (c: char)
    requires 0xD800 <= hi < 0xDC00 && 0xDC00 <= lo < 0xE000
    ensures 0x1_0000 <= c as int && (c as int - 0x1_0000) / 0x400 == hi - 0xD800 && (c as int - 0x1_0000) % 0x400 == lo - 0xDC00
  {
    (0x1_0000 + (hi - 0xD800) * 0x400 + (lo - 0xDC00)) as char
  }

  // ---------------------------------------------------------------------------
  // Writing
  // ---------------------------------------------------------------------------

  /** The characters `JSON.stringify` writes as they are. */
  predicate Plain(c: char) {
    c != '"' && c != '\\' && ' ' <= c
  }

  /** How `JSON.stringify` writes one character of a string. */
  function EscapeChar(c: char): Str {
    if Plain(c) then [c] else ['\\'] + EscapeCode(c)
  }

  /** What follows the backslash in the escape of a character that is not plain. */
  function EscapeCode(c: char): Str {
    if c == '"' then "\""
    else if c == '\\' then "\\"
    else if c == '\U{8}' then "b"
    else if c == '\t' then "t"
    else if c == '\n' then "n"
    else if c == '\U{C}' then "f"
    else if c == '\r' then "r"
    else ['u', '0', '0', HexDigit(c as int / 16 % 16), HexDigit(c as int % 16)]
  }

  function Escape(s: Str): Str {
    if s == [] then [] else EscapeChar(s[0]) + Escape(s[1..])
  }

  /** A JSON string literal. */
  function Quote(s: Str): Str {
    "\"" + Escape(s) + "\""
  }

  /** One entry `[key, value]`. */
  function Pair(e: (Str, Str)): Str {
    "[" + Quote(e.0) + "," + Quote(e.1) + "]"
  }

  /** The array of entries. */
  function Stringify(t: seq<(Str, Str)>): Str {
    if t == [] then "[]" else "[" + Pair(t[0]) + Rest(t[1..])
  }

  /** The entries after the first, each after a comma, and the closing bracket. */
  function Rest(t: seq<(Str, Str)>): Str {
    if t == [] then "]" else "," + Pair(t[0]) + Rest(t[1..])
  }

  // ---------------------------------------------------------------------------
  // Reading
  // ---------------------------------------------------------------------------

  /**
   * The character an escape stands for (s starts after the backslash), and the
   * text after it.  A high surrogate followed by the escape of a low one is
   * one character.
   */
  function ParseEscape(s: Str): (r: Result<(char, Str), JsonError>)
    ensures r.Ok? ==> |r.value.1| < |s|
  {
    if s == [] then Err(SyntaxError)
    else if s[0] == '"' || s[0] == '\\' || s[0] == '/' then Ok((s[0], s[1..]))
    else if s[0] == 'b' then Ok(('\U{8}', s[1..]))
    else if s[0] == 'f' then Ok(('\U{C}', s[1..]))
    else if s[0] == 'n' then Ok(('\n', s[1..]))
    else if s[0] == 'r' then Ok(('\r', s[1..]))
    else if s[0] == 't' then Ok(('\t', s[1..]))
    else if s[0] == 'u' && |s| >= 5 then
      match Hex4Value(s[1], s[2], s[3], s[4])
      case None => Err(SyntaxError)
      case Some(v) =>
        if 0xD800 <= v < 0xDC00 && |s| >= 11 && s[5] == '\\' && s[6] == 'u' then
          match Hex4Value(s[7], s[8], s[9], s[10])
          case None => Err(SyntaxError)
          case Some(w) =>
            if 0xDC00 <= w < 0xE000 then Ok((Combine(v, w), s[11..])) else Err(SyntaxError)
        else if 0xD800 <= v < 0xE000 then Err(SyntaxError)
        else Ok((v as char, s[5..]))
    else Err(SyntaxError)
  }

  /** c in front of the string a successful parse read. */
  function Cons(c: char, r: Result<(Str, Str), JsonError>): Result<(Str, Str), JsonError> {
    match r
    case Ok((t, rest)) => Ok(([c] + t, rest))
    case Err(e) => Err(e)
  }

  /** The characters of a string literal up to its closing quote (s starts after the opening one), and the text after it. */
  function ParseChars(s: Str): (r: Result<(Str, Str), JsonError>)
    ensures r.Ok? ==> |r.value.1| < |s|
    decreases |s|
  {
    if s == [] then Err(SyntaxError)
    else if s[0] == '"' then Ok(([], s[1..]))
    else if s[0] == '\\' then
      var e := ParseEscape(s[1..]);
      if e.Err? then Err(SyntaxError) else Cons(e.value.0, ParseChars(e.value.1))
    else if s[0] < ' ' then Err(SyntaxError)
    else Cons(s[0], ParseChars(s[1..]))
  }

  function ParseString(s: Str): (r: Result<(Str, Str), JsonError>)
    ensures r.Ok? ==> |r.value.1| < |s|
  {
    if s != [] && s[0] == '"' then ParseChars(s[1..]) else Err(SyntaxError)
  }

  /** The text after a leading c. */
  function Expect(s: Str, c: char): (r: Result<Str, JsonError>)
    ensures r.Ok? ==> |r.value| < |s|
  {
    if s != [] && s[0] == c then Ok(s[1..]) else Err(SyntaxError)
  }

  function ParsePair(s: Str): (r: Result<((Str, Str), Str), JsonError>)
    ensures r.Ok? ==> |r.value.1| < |s|
  {
    var a :- Expect(s, '[');
    var k :- ParseString(a);
    var b :- Expect(k.1, ',');
    var v :- ParseString(b);
    var rest :- Expect(v.1, ']');
    Ok(((k.0, v.0), rest))
  }

  function ParseRest(s: Str): (r: Result<(seq<(Str, Str)>, Str), JsonError>)
    decreases |s|
  {
    if s != [] && s[0] == ']' then Ok(([], s[1..]))
    else if s != [] && s[0] == ',' then
      var p :- ParsePair(s[1..]);
      var m :- ParseRest(p.1);
      Ok(([p.0] + m.0, m.1))
    else Err(SyntaxError)
  }

  /** `JSON.parse` of an array of `[key, value]` string pairs; anything after the array is an error. */
  function ParseTable(s: Str): Result<seq<(Str, Str)>, JsonError> {
    var a :- Expect(s, '[');
    if a != [] && a[0] == ']' then
      if a[1..] == [] then Ok([]) else Err(SyntaxError)
    else
      var p :- ParsePair(a);
      var m :- ParseRest(p.1);
      if m.1 == [] then Ok([p.0] + m.0) else Err(SyntaxError)
  }

  // ---------------------------------------------------------------------------
  // Reading what was written
  // ---------------------------------------------------------------------------

  lemma HexRoundTrip(d: nat)
    requires d < 16
    ensures HexValue(HexDigit(d)) == Some(d)
  {
  }

  /** Reading the escape of c gives back c. */
  lemma CharStep(c: char, rest: Str)
    ensures ParseChars(EscapeChar(c) + rest) == Cons(c, ParseChars(rest))
  {
    var s := EscapeChar(c) + rest;
    if Plain(c) {
      assert s[0] == c && s[1..] == rest;
    } else {
      assert s[0] == '\\' && s[1..] == EscapeCode(c) + rest;
      EscapeStep(c, rest);
    }
  }

  lemma EscapeStep(c: char, rest: Str)
    requires !Plain(c)
    ensures ParseEscape(EscapeCode(c) + rest) == Ok((c, rest))
  {
    if c < ' ' && c != '\U{8}' && c != '\t' && c != '\n' && c != '\U{C}' && c != '\r' {
      var hi, lo := c as int / 16 % 16, c as int % 16;
      HexRoundTrip(0);
      HexRoundTrip(hi);
      HexRoundTrip(lo);
    }
  }

  lemma {:induction false} CharsRoundTrip(x: Str, rest: Str)
    ensures ParseChars(Escape(x) + "\"" + rest) == Ok((x, rest))
  {
    if x == [] {
      assert Escape(x) + "\"" + rest == ['"'] + rest;
    } else {
      var tail := Escape(x[1..]) + "\"" + rest;
      assert Escape(x) + "\"" + rest == EscapeChar(x[0]) + tail;
      CharStep(x[0], tail);
      CharsRoundTrip(x[1..], rest);
      assert [x[0]] + x[1..] == x;
    }
  }

  lemma StringRoundTrip(x: Str, rest: Str)
    ensures ParseString(Quote(x) + rest) == Ok((x, rest))
  {
    assert (Quote(x) + rest)[1..] == Escape(x) + "\"" + rest;
    CharsRoundTrip(x, rest);
  }

  lemma PairRoundTrip(e: (Str, Str), rest: Str)
    ensures ParsePair(Pair(e) + rest) == Ok((e, rest))
  {
    var s := Pair(e) + rest;
    var c := "]" + rest;
    var b := Quote(e.1) + c;
    var a := Quote(e.0) + ("," + b);
    PairText(e, rest);
    assert Expect(s, '[') == Ok(a);
    StringRoundTrip(e.0, "," + b);
    assert Expect("," + b, ',') == Ok(b);
    StringRoundTrip(e.1, c);
    assert Expect(c, ']') == Ok(rest);
  }

  lemma PairText(e: (Str, Str), rest: Str)
    ensures Pair(e) + rest == "[" + (Quote(e.0) + ("," + (Quote(e.1) + ("]" + rest))))
  {
  }

  lemma {:induction false} RestRoundTrip(t: seq<(Str, Str)>, rest: Str)
    ensures ParseRest(Rest(t) + rest) == Ok((t, rest))
  {
    if t == [] {
      assert (Rest(t) + rest)[1..] == rest;
    } else {
      var tail := Rest(t[1..]) + rest;
      RestText(t, rest);
      PairRoundTrip(t[0], tail);
      RestRoundTrip(t[1..], rest);
      RestStep(Pair(t[0]) + tail, t[0], tail, t[1..], rest);
      assert [t[0]] + t[1..] == t;
    }
  }

  lemma RestText(t: seq<(Str, Str)>, rest: Str)
    requires t != []
    ensures Rest(t) + rest == "," + (Pair(t[0]) + (Rest(t[1..]) + rest))
  {
  }

  /** ParseRest after a comma whose entry and the rest both parsed. */
  lemma RestStep(s: Str, p: (Str, Str), tail: Str, ps: seq<(Str, Str)>, rest: Str)
    requires ParsePair(s) == Ok((p, tail)) && ParseRest(tail) == Ok((ps, rest))
    ensures ParseRest("," + s) == Ok(([p] + ps, rest))
  {
    assert ("," + s)[1..] == s;
  }

  /** Parsing the text of a table gives back the table. */
  lemma TableRoundTrip(t: seq<(Str, Str)>)
    ensures ParseTable(Stringify(t)) == Ok(t)
  {
    if t == [] {
      assert Expect("[]", '[') == Ok("]");
    } else {
      var tail := Rest(t[1..]);
      var a := Pair(t[0]) + tail;
      assert Stringify(t) == "[" + a;
      PairRoundTrip(t[0], tail);
      RestRoundTrip(t[1..], []);
      assert tail + [] == tail;
      TableStep(a, t[0], tail, t[1..]);
      assert [t[0]] + t[1..] == t;
    }
  }

  /** ParseTable on an array whose first entry and the rest both parsed. */
  lemma TableStep(a: Str, p: (Str, Str), tail: Str, ps: seq<(Str, Str)>)
    requires a != [] && a[0] == '['
    requires ParsePair(a) == Ok((p, tail)) && ParseRest(tail) == Ok((ps, []))
    ensures ParseTable("[" + a) == Ok([p] + ps)
  {
    assert ("[" + a)[1..] == a;
  }

  /** The string literal of the escapes of a surrogate pair is the one character beyond U+FFFF they encode. */
  lemma SurrogatePairExample(rest: Str)
    ensures ParseString("\"\\ud83d\\ude00\"" + rest) == Ok(("\U{1F600}", rest))
  {
    var s := "\"\\ud83d\\ude00\"" + rest;
    var t := s[2..];
    assert s[0] == '"' && s[1] == '\\';
    assert t[0] == 'u' && t[5] == '\\' && t[6] == 'u' && t[11] == '"' && t[12..] == rest;
    assert Hex4Value(t[1], t[2], t[3], t[4]) == Some(0xD83D);
    assert Hex4Value(t[7], t[8], t[9], t[10]) == Some(0xDE00);
    assert ParseEscape(t) == Ok(('\U{1F600}', t[11..]));
    assert ParseChars(t[11..]) == Ok(([], rest));
    assert s[1..][0] == '\\' && s[1..][1..] == t;
    assert ParseChars(s[1..]) == Cons('\U{1F600}', ParseChars(t[11..]));
    assert ['\U{1F600}'] + [] == "\U{1F600}";
  }

  // ---------------------------------------------------------------------------
  // The separator
  // ---------------------------------------------------------------------------

  /** No key and no value of t contains c. */
  predicate Avoids(t: seq<(Str, Str)>, c: char) {
    forall i :: 0 <= i < |t| ==> c !in t[i].0 && c !in t[i].1
  }

  lemma {:induction false} EscapeAvoids(x: Str)
    requires '|' !in x
    ensures '|' !in Escape(x)
  {
    if x != [] {
      EscapeAvoids(x[1..]);
      assert x[0] in x;
    }
  }

  lemma PairAvoids(e: (Str, Str))
    requires '|' !in e.0 && '|' !in e.1
    ensures '|' !in Pair(e)
  {
    var q0, q1 := Quote(e.0), Quote(e.1);
    EscapeAvoids(e.0);
    EscapeAvoids(e.1);
    assert '|' !in q0 && '|' !in q1;
    assert Pair(e) == "[" + q0 + "," + q1 + "]";
  }

  lemma {:induction false} RestAvoids(t: seq<(Str, Str)>)
    requires Avoids(t, '|')
    ensures '|' !in Rest(t)
  {
    if t != [] {
      PairAvoids(t[0]);
      RestAvoids(t[1..]);
    }
  }

  /** The text of a table whose strings have no `|` has none either, so `split('|')` finds the table whole. */
  lemma StringifyAvoids(t: seq<(Str, Str)>)
    requires Avoids(t, '|')
    ensures '|' !in Stringify(t)
  {
    if t != [] {
      PairAvoids(t[0]);
      RestAvoids(t[1..]);
    }
  }
}

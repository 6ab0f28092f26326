/**
 The language of core/json.cpp: what the parser reads from a byte string, as functions of the
 text that is still unread.
 */
module JsonText {

  type Byte = b: int | 0 <= b < 256
  type Bytes = seq<Byte>

  const QUOTE: Byte := 0x22
  const BACKSLASH: Byte := 0x5C
  const COMMA: Byte := 0x2C
  const COLON: Byte := 0x3A
  const LBRACKET: Byte := 0x5B
  const RBRACKET: Byte := 0x5D
  const LBRACE: Byte := 0x7B
  const RBRACE: Byte := 0x7D
  const LETTER_U: Byte := 0x75
  const MAX_DEPTH: nat := 64

  const TRUE: Bytes := [0x74, 0x72, 0x75, 0x65]
  const FALSE: Bytes := [0x66, 0x61, 0x6C, 0x73, 0x65]
  const NULL: Bytes := [0x6E, 0x75, 0x6C, 0x6C]
  const BOM: Bytes := [0xEF, 0xBB, 0xBF]

  /** A parsed document. A number keeps its literal text. */
  datatype Json =
    | Null
    | Bool(b: bool)
    | Number(raw: Bytes)
    | Str(s: Bytes)
    | Arr(items: seq<Json>)
    | Obj(members: map<Bytes, Json>)

  datatype Fault =
    | TooDeep | EndOfInput | BadLiteral | NoValue
    | ExpectedKey | ExpectedColon | UnterminatedObject | ExpectedCommaOrBrace
    | UnterminatedArray | ExpectedCommaOrBracket
    | UnterminatedString | RawControl | UnterminatedEscape | UnknownEscape | TruncatedHex | BadHex
    | Trailing

  /** A value and the unread text, or the fault and how many bytes were unread when it was met. */
  datatype Parsed<T> = Ok(value: T, rest: Bytes) | Err(what: Fault, left: nat)

  predicate IsWs(c: Byte) { c == 0x20 || c == 0x09 || c == 0x0A || c == 0x0D }
  predicate IsDigit(c: Byte) { 0x30 <= c <= 0x39 }
  predicate IsSign(c: Byte) { c == 0x2D || c == 0x2B }

  function SkipWs(t: Bytes): (r: Bytes)
    ensures |r| <= |t|
  {
    if t != [] && IsWs(t[0]) then SkipWs(t[1..]) else t
  }

  // ---- strings ----

  function HexValue(c: Byte): int {
    if 0x30 <= c <= 0x39 then c - 0x30
    else if 0x61 <= c <= 0x66 then c - 0x61 + 10
    else if 0x41 <= c <= 0x46 then c - 0x41 + 10
    else -1
  }

  function Hex4(t: Bytes): (r: Parsed<nat>)
    ensures r.Ok? ==> r.value < 0x1_0000 && |t| >= 4 && r.rest == t[4..]
  {
    if |t| < 4 then Err(TruncatedHex, |t|)
    else
      var a, b, c, d := HexValue(t[0]), HexValue(t[1]), HexValue(t[2]), HexValue(t[3]);
      if a < 0 || b < 0 || c < 0 || d < 0 then Err(BadHex, |t|)
      else Ok(((a * 16 + b) * 16 + c) * 16 + d, t[4..])
  }

  /** UTF-8 bytes of a code point; a surrogate gets three bytes like its neighbours. */
  function Utf8(cp: nat): (r: Bytes)
    requires cp < 0x11_0000
    ensures 1 <= |r| <= 4
  {
    if cp < 0x80 then [cp]
    else if cp < 0x800 then [0xC0 + cp / 0x40, 0x80 + cp % 0x40]
    else if cp < 0x1_0000 then [0xE0 + cp / 0x1000, 0x80 + cp / 0x40 % 0x40, 0x80 + cp % 0x40]
    else [0xF0 + cp / 0x4_0000, 0x80 + cp / 0x1000 % 0x40, 0x80 + cp / 0x40 % 0x40, 0x80 + cp % 0x40]
  }

  predicate IsHigh(u: nat) { 0xD800 <= u <= 0xDBFF }
  predicate IsLow(u: nat) { 0xDC00 <= u <= 0xDFFF }

  function Pair(hi: nat, lo: nat): (cp: nat)
    requires IsHigh(hi) && IsLow(lo)
    ensures 0x1_0000 <= cp < 0x11_0000
  {
    0x1_0000 + (hi - 0xD800) * 0x400 + (lo - 0xDC00)
  }

  /** The byte a one-letter escape stands for. */
  function SimpleEscape(e: Byte): (r: int)
    ensures r < 256
  {
    if e == QUOTE || e == BACKSLASH || e == 0x2F then e
    else if e == 0x62 then 0x08
    else if e == 0x66 then 0x0C
    else if e == 0x6E then 0x0A
    else if e == 0x72 then 0x0D
    else if e == 0x74 then 0x09
    else -1
  }

  predicate StartsUnicodeEscape(t: Bytes) { |t| >= 2 && t[0] == BACKSLASH && t[1] == LETTER_U }

  /** The bytes of a \u escape whose digits start at t. A high surrogate looks at the escape behind
      it: with a low one it makes a pair, anything else is appended on its own. */
  function UnicodeEscape(t: Bytes): (r: Parsed<Bytes>)
    ensures r.Ok? ==> |r.rest| < |t|
  {
    match Hex4(t)
    case Err(what, left) => Err(what, left)
    case Ok(hi, r) =>
      if IsHigh(hi) && StartsUnicodeEscape(r) then
        match Hex4(r[2..])
        case Err(what, left) => Err(what, left)
        case Ok(lo, r') => Ok(if IsLow(lo) then Utf8(Pair(hi, lo)) else Utf8(hi) + Utf8(lo), r')
      else Ok(Utf8(hi), r)
  }

  /** The bytes of an escape, from behind its backslash. */
  function Escape(t: Bytes): (r: Parsed<Bytes>)
    ensures r.Ok? ==> |r.rest| < |t|
  {
    if t == [] then Err(UnterminatedEscape, 0)
    else if t[0] == LETTER_U then UnicodeEscape(t[1..])
    else
      var c := SimpleEscape(t[0]);
      if c < 0 then Err(UnknownEscape, |t| - 1) else Ok([c], t[1..])
  }

  /** The rest of a string literal after `out` was read. */
  function StringBody(t: Bytes, out: Bytes): (r: Parsed<Bytes>)
    ensures r.Ok? ==> |r.rest| < |t|
    decreases |t|
  {
    if t == [] then Err(UnterminatedString, 0)
    else if t[0] == QUOTE then Ok(out, t[1..])
    else if t[0] != BACKSLASH then
      if t[0] < 0x20 then Err(RawControl, |t| - 1) else StringBody(t[1..], out + [t[0]])
    else
      match Escape(t[1..])
      case Err(what, left) => Err(what, left)
      case Ok(bytes, r) => StringBody(r, out + bytes)
  }

  // ---- numbers ----

  function SkipDigits(t: Bytes): (r: Bytes)
    ensures |r| <= |t|
  {
    if t != [] && IsDigit(t[0]) then SkipDigits(t[1..]) else t
  }

  function SkipSign(t: Bytes): (r: Bytes)
    ensures |r| <= |t|
  {
    if t != [] && IsSign(t[0]) then t[1..] else t
  }

  /** Optional fraction: the text behind it, and whether it had a digit. */
  function SkipFraction(t: Bytes): (r: (bool, Bytes))
    ensures |r.1| <= |t|
  {
    if t != [] && t[0] == 0x2E then
      var u := SkipDigits(t[1..]);
      (|u| < |t| - 1, u)
    else (false, t)
  }

  function SkipExponent(t: Bytes): (r: Bytes)
    ensures |r| <= |t|
  {
    if t != [] && (t[0] == 0x65 || t[0] == 0x45) then SkipDigits(SkipSign(t[1..])) else t
  }

  /** Whether the mantissa had a digit, and the text behind the number. */
  function ScanNumber(t: Bytes): (r: (bool, Bytes))
    ensures |r.1| <= |t|
  {
    var a := SkipSign(t);
    var b := SkipDigits(a);
    var (frac, c) := SkipFraction(b);
    (|b| < |a| || frac, SkipExponent(c))
  }

  function ParseNumber(t: Bytes): (r: Parsed<Json>)
    ensures r.Ok? ==> |r.rest| < |t|
  {
    var (any, rest) := ScanNumber(t);
    DigitsConsume(t);
    if any then Ok(Number(t[..|t| - |rest|]), rest) else Err(NoValue, |rest|)
  }

  lemma DigitsConsume(t: Bytes)
    ensures ScanNumber(t).0 ==> |ScanNumber(t).1| < |t|
  {
  }

  // ---- values ----

  function Literal(t: Bytes, word: Bytes, v: Json): (r: Parsed<Json>)
    requires word != []
    ensures r.Ok? ==> |r.rest| < |t|
  {
    if word <= t then Ok(v, t[|word|..]) else Err(BadLiteral, |t|)
  }

  function ParseValue(t: Bytes, depth: nat): (r: Parsed<Json>)
    ensures r.Ok? ==> |r.rest| < |t|
    decreases |t|, 3
  {
    if depth >= MAX_DEPTH then Err(TooDeep, |t|)
    else
      var u := SkipWs(t);
      if u == [] then Err(EndOfInput, 0)
      else if u[0] == LBRACE then ParseObject(u, depth)
      else if u[0] == LBRACKET then ParseArray(u, depth)
      else if u[0] == QUOTE then
        match StringBody(u[1..], [])
        case Err(what, left) => Err(what, left)
        case Ok(s, rest) => Ok(Str(s), rest)
      else if u[0] == 0x74 then Literal(u, TRUE, Bool(true))
      else if u[0] == 0x66 then Literal(u, FALSE, Bool(false))
      else if u[0] == 0x6E then Literal(u, NULL, Null)
      else ParseNumber(u)
  }

  /** An array, from its opening bracket on. */
  function ParseArray(t: Bytes, depth: nat): (r: Parsed<Json>)
    requires t != []
    ensures r.Ok? ==> |r.rest| < |t|
    decreases |t|, 2
  {
    var u := SkipWs(t[1..]);
    if u != [] && u[0] == RBRACKET then Ok(Arr([]), u[1..]) else ParseItems(u, depth + 1, [])
  }

  /** An object, from its opening brace on. */
  function ParseObject(t: Bytes, depth: nat): (r: Parsed<Json>)
    requires t != []
    ensures r.Ok? ==> |r.rest| < |t|
    decreases |t|, 2
  {
    var u := SkipWs(t[1..]);
    if u != [] && u[0] == RBRACE then Ok(Obj(map[]), u[1..]) else ParseMembers(u, depth + 1, map[])
  }

  /** The remaining items of an array, after `a`. */
  function ParseItems(t: Bytes, depth: nat, a: seq<Json>): (r: Parsed<Json>)
    ensures r.Ok? ==> |r.rest| < |t|
    decreases |t|, 4
  {
    match ParseValue(t, depth)
    case Err(what, left) => Err(what, left)
    case Ok(v, rest) =>
      var u := SkipWs(rest);
      if u == [] then Err(UnterminatedArray, 0)
      else if u[0] == COMMA then ParseItems(u[1..], depth, a + [v])
      else if u[0] == RBRACKET then Ok(Arr(a + [v]), u[1..])
      else Err(ExpectedCommaOrBracket, |u|)
  }

  /** A member's key and the colon behind it. */
  function ParseKey(t: Bytes): (r: Parsed<Bytes>)
    ensures r.Ok? ==> |r.rest| < |t|
  {
    var u := SkipWs(t);
    if u == [] || u[0] != QUOTE then Err(ExpectedKey, |u|)
    else
      match StringBody(u[1..], [])
      case Err(what, left) => Err(what, left)
      case Ok(key, rest) =>
        var v := SkipWs(rest);
        if v == [] || v[0] != COLON then Err(ExpectedColon, |v|) else Ok(key, v[1..])
  }

  /** Key, colon and value. */
  function ParseMember(t: Bytes, depth: nat): (r: Parsed<(Bytes, Json)>)
    ensures r.Ok? ==> |r.rest| < |t|
    decreases |t|, 4
  {
    match ParseKey(t)
    case Err(what, left) => Err(what, left)
    case Ok(key, afterKey) =>
      match ParseValue(afterKey, depth)
      case Err(what, left) => Err(what, left)
      case Ok(v, rest) => Ok((key, v), rest)
  }

  /** The remaining members of an object, after `o`; a repeated key keeps the last value. */
  function ParseMembers(t: Bytes, depth: nat, o: map<Bytes, Json>): (r: Parsed<Json>)
    ensures r.Ok? ==> |r.rest| < |t|
    decreases |t|, 5
  {
    match ParseMember(t, depth)
    case Err(what, left) => Err(what, left)
    case Ok(m, rest) =>
      var u := SkipWs(rest);
      if u == [] then Err(UnterminatedObject, 0)
      else if u[0] == COMMA then ParseMembers(u[1..], depth, o[m.0 := m.1])
      else if u[0] == RBRACE then Ok(Obj(o[m.0 := m.1]), u[1..])
      else Err(ExpectedCommaOrBrace, |u|)
  }

  /** A whole document: an optional byte-order mark, one value, and nothing but whitespace behind it. */
  function ParseDocument(text: Bytes): (r: Parsed<Json>)
    ensures r.Ok? ==> r.rest == []
  {
    var t := if BOM <= text then text[3..] else text;
    match ParseValue(t, 0)
    case Err(what, left) => Err(what, left)
    case Ok(v, rest) =>
      var u := SkipWs(rest);
      if u == [] then Ok(v, []) else Err(Trailing, |u|)
  }
}

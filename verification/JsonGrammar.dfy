/**
 The grammar of the documents that core/json.cpp accepts: what can be written, with its layout and
 every choice of spelling, and what it means.
 */
module JsonGrammar {
  import opened JsonText

  // ---- spelling ----

  function Ascii(s: string): (r: seq<int>)
    ensures |r| == |s|
  {
    seq(|s|, i requires 0 <= i < |s| => s[i] as int)
  }

  /** The bytes that the parser looks for. */
  lemma Spelling()
    ensures QUOTE == '"' as int && BACKSLASH == '\\' as int && LETTER_U == 'u' as int
    ensures COMMA == ',' as int && COLON == ':' as int && LBRACKET == '[' as int && RBRACKET == ']' as int
    ensures LBRACE == '{' as int && RBRACE == '}' as int
    ensures TRUE == Ascii("true") && FALSE == Ascii("false") && NULL == Ascii("null") && MAX_DEPTH == 64
    ensures BOM == [239, 187, 191]
  {
  }

  ghost predicate Blank(w: Bytes) {
    forall i :: 0 <= i < |w| ==> w[i] == ' ' as int || w[i] == '\t' as int || w[i] == '\n' as int || w[i] == '\r' as int
  }

  // ---- numbers ----

  ghost predicate Digits(d: Bytes) { forall i :: 0 <= i < |d| ==> '0' as int <= d[i] <= '9' as int }

  ghost predicate IsSignText(s: Bytes) { s == [] || s == ['-' as int] || s == ['+' as int] }

  datatype Exponent = NoExponent | Exponent(e: Byte, sign: Bytes, digits: Bytes)

  /** A number as written: a sign, digits, a point with digits behind it, an exponent. All parts may be
      missing, but the mantissa has a digit. */
  datatype Numeral = Numeral(sign: Bytes, whole: Bytes, point: bool, frac: Bytes, exp: Exponent)

  ghost predicate IsExponent(x: Exponent) {
    x.Exponent? ==> (x.e == 'e' as int || x.e == 'E' as int) && IsSignText(x.sign) && Digits(x.digits)
  }

  ghost predicate IsNumeral(n: Numeral) {
    && IsSignText(n.sign) && Digits(n.whole) && Digits(n.frac) && (n.frac != [] ==> n.point)
    && (n.whole != [] || n.frac != []) && IsExponent(n.exp)
  }

  function ExponentText(x: Exponent): Bytes {
    if x.Exponent? then [x.e] + (x.sign + x.digits) else []
  }

  function FractionText(n: Numeral): Bytes { if n.point then ['.' as int] + n.frac else [] }

  function NumeralText(n: Numeral): Bytes { n.sign + (n.whole + (FractionText(n) + ExponentText(n.exp))) }

  // ---- strings ----

  /** A byte as it is, a backslash and a letter, or a backslash, u and four hex digits. */
  datatype Piece = Plain(c: Byte) | Short(letter: Byte) | Unit(digits: Bytes)

  predicate IsHexDigit(c: Byte) {
    '0' as int <= c <= '9' as int || 'a' as int <= c <= 'f' as int || 'A' as int <= c <= 'F' as int
  }

  function HexDigitValue(c: Byte): (d: nat)
    requires IsHexDigit(c)
    ensures d < 16
  {
    if c <= '9' as int then c - '0' as int
    else if c >= 'a' as int then 10 + (c - 'a' as int) else 10 + (c - 'A' as int)
  }

  function HexNumber(h: Bytes): (u: nat)
    requires |h| == 4 && forall i :: 0 <= i < 4 ==> IsHexDigit(h[i])
    ensures u < 0x1_0000
  {
    4096 * HexDigitValue(h[0]) + 256 * HexDigitValue(h[1]) + 16 * HexDigitValue(h[2]) + HexDigitValue(h[3])
  }

  predicate IsPiece(p: Piece) {
    match p
    case Plain(c) => c >= 32 && c != '"' as int && c != '\\' as int
    case Short(l) => ShortMeaning(l) >= 0
    case Unit(h) => |h| == 4 && forall i :: 0 <= i < 4 ==> IsHexDigit(h[i])
  }

  /** The byte that a backslash and a letter stand for, below zero for other letters. */
  function ShortMeaning(l: Byte): (r: int)
    ensures r < 256
  {
    if l == '"' as int || l == '\\' as int || l == '/' as int then l
    else if l == 'b' as int then 8 else if l == 't' as int then 9 else if l == 'n' as int then 10
    else if l == 'f' as int then 12 else if l == 'r' as int then 13 else -1
  }

  function PieceText(p: Piece): Bytes {
    match p
    case Plain(c) => [c]
    case Short(l) => ['\\' as int, l]
    case Unit(h) => ['\\' as int, 'u' as int] + h
  }

  function PiecesText(ps: seq<Piece>): Bytes {
    if ps == [] then [] else PieceText(ps[0]) + PiecesText(ps[1..])
  }

  predicate ArePieces(ps: seq<Piece>) { forall i :: 0 <= i < |ps| ==> IsPiece(ps[i]) }

  /** A spelling of a string. */
  type Text = ps: seq<Piece> | ArePieces(ps)

  /** Two units one after the other, the first a high surrogate: together if they are a pair. */
  function TwoUnits(u: nat, v: nat): Bytes
    requires u < 0x1_0000 && v < 0x1_0000 && IsHigh(u)
  {
    if IsLow(v) then Utf8(Pair(u, v)) else Utf8(u) + Utf8(v)
  }

  /** The bytes of a string. A high surrogate takes the unit right behind it along. */
  function Said(ps: Text): Bytes
    decreases |ps|
  {
    if ps == [] then []
    else match ps[0]
      case Plain(c) => [c] + Said(ps[1..])
      case Short(l) => [ShortMeaning(l)] + Said(ps[1..])
      case Unit(h) =>
        if IsHigh(HexNumber(h)) && |ps| >= 2 && ps[1].Unit?
        then TwoUnits(HexNumber(h), HexNumber(ps[1].digits)) + Said(ps[2..])
        else Utf8(HexNumber(h)) + Said(ps[1..])
  }

  function StringText(ps: Text): Bytes { ['"' as int] + PiecesText(ps) + ['"' as int] }

  // ---- documents with their layout ----

  /** A document as written: whitespace and spelling are part of it. */
  datatype Tree =
    | TNull
    | TBool(b: bool)
    | TNumber(num: Numeral)
    | TStr(text: Text)
    | TArr(blank: Bytes, items: seq<Item>)
    | TObj(blank: Bytes, members: seq<Member>)
  datatype Item = Item(before: Bytes, value: Tree, after: Bytes)
  datatype Member = Member(before: Bytes, key: Text, afterKey: Bytes, item: Item)

  ghost predicate WellFormed(t: Tree) {
    match t
    case TNumber(num) => IsNumeral(num)
    case TArr(blank, items) => Blank(blank) && forall i :: 0 <= i < |items| ==> WellFormedItem(items[i])
    case TObj(blank, members) => Blank(blank) && forall i :: 0 <= i < |members| ==> WellFormedMember(members[i])
    case _ => true
  }

  ghost predicate WellFormedItem(it: Item) { Blank(it.before) && Blank(it.after) && WellFormed(it.value) }

  ghost predicate WellFormedMember(m: Member) {
    Blank(m.before) && Blank(m.afterKey) && WellFormedItem(m.item)
  }

  function Print(t: Tree): Bytes
    decreases t, 0
  {
    match t
    case TNull => NULL
    case TBool(b) => if b then TRUE else FALSE
    case TNumber(num) => NumeralText(num)
    case TStr(text) => StringText(text)
    case TArr(blank, items) => [LBRACKET] + (if items == [] then blank else PrintItems(items)) + [RBRACKET]
    case TObj(blank, members) => [LBRACE] + (if members == [] then blank else PrintMembers(members)) + [RBRACE]
  }

  function PrintItem(it: Item): Bytes
    decreases it, 1
  {
    it.before + Print(it.value) + it.after
  }

  function PrintItems(items: seq<Item>): Bytes
    requires items != []
    decreases items, 2
  {
    if |items| == 1 then PrintItem(items[0]) else PrintItem(items[0]) + [COMMA] + PrintItems(items[1..])
  }

  function PrintMember(m: Member): Bytes
    decreases m, 2
  {
    m.before + StringText(m.key) + m.afterKey + [COLON] + PrintItem(m.item)
  }

  function PrintMembers(members: seq<Member>): Bytes
    requires members != []
    decreases members, 3
  {
    if |members| == 1 then PrintMember(members[0]) else PrintMember(members[0]) + [COMMA] + PrintMembers(members[1..])
  }

  /** The document that a tree denotes. */
  function Meaning(t: Tree): Json
    decreases t, 0
  {
    match t
    case TNull => Null
    case TBool(b) => Bool(b)
    case TNumber(num) => Number(NumeralText(num))
    case TStr(text) => Str(Said(text))
    case TArr(_, items) => Arr(Meanings(items))
    case TObj(_, members) => Obj(Bindings(members, map[]))
  }

  function Meanings(items: seq<Item>): seq<Json>
    decreases items, 1
  {
    if items == [] then [] else [Meaning(items[0].value)] + Meanings(items[1..])
  }

  /** A repeated key keeps its last value. */
  function Bindings(members: seq<Member>, o: map<Bytes, Json>): map<Bytes, Json>
    decreases members, 1
  {
    if members == [] then o
    else Bindings(members[1..], o[Said(members[0].key) := Meaning(members[0].item.value)])
  }

  /** Levels of nesting; a scalar or an empty container has one. */
  function Height(t: Tree): nat
    decreases t, 0
  {
    match t
    case TArr(_, items) => 1 + ItemsHeight(items)
    case TObj(_, members) => 1 + MembersHeight(members)
    case _ => 1
  }

  function ItemsHeight(items: seq<Item>): nat
    decreases items, 1
  {
    if items == [] then 0 else Max(Height(items[0].value), ItemsHeight(items[1..]))
  }

  function MembersHeight(members: seq<Member>): nat
    decreases members, 1
  {
    if members == [] then 0 else Max(Height(members[0].item.value), MembersHeight(members[1..]))
  }

  function Max(a: nat, b: nat): nat { if a < b then b else a }
}

/**
 Parsing a printed document returns it: for every tree, every layout, and exactly when the
 nesting stays within the parser's cap.
 */
module JsonDocuments {
  import opened JsonText
  import opened JsonRoundTrip
  import opened JsonGrammar
  import opened JsonScalars

  ghost predicate NoWs(t: Bytes) { t == [] || !IsWs(t[0]) }

  lemma {:induction false} SkipBlank(w: Bytes, t: Bytes)
    requires Blank(w) && NoWs(t)
    ensures SkipWs(w + t) == t
  {
    if w == [] {
      assert w + t == t;
    } else {
      assert (w + t)[1..] == w[1..] + t;
      SkipBlank(w[1..], t);
    }
  }

  lemma NumberBack(n: Numeral, post: Bytes)
    requires IsNumeral(n) && Delim(post)
    ensures ParseNumber(NumeralText(n) + post) == Ok(Number(NumeralText(n)), post)
  {
    NumeralRead(n, post);
    hide ScanNumber, NumeralText;
    var t := NumeralText(n) + post;
    assert t[..|t| - |post|] == NumeralText(n);
  }

  lemma StringBack(ps: Text, post: Bytes)
    ensures StringText(ps) != [] && (StringText(ps) + post)[0] == QUOTE
    ensures StringBody((StringText(ps) + post)[1..], []) == Ok(Said(ps), post)
  {
    hide StringBody, Said;
    var tail := [QUOTE] + post;
    assert (StringText(ps) + post)[1..] == PiecesText(ps) + tail;
    PiecesRead(ps, post, []);
    assert [] + Said(ps) == Said(ps);
  }

  // ---- values ----

  /** The printed value starts with none of the bytes that could be skipped or end a container. */
  lemma PrintStarts(t: Tree)
    requires WellFormed(t)
    ensures Print(t) != [] && NoWs(Print(t)) && Print(t)[0] != RBRACKET && Print(t)[0] != RBRACE
  {
    if t.TNumber? { NumeralStarts(t.num); }
  }

  /** Success with the document, or the nesting fault; `left` is where the fault was met. */
  ghost predicate Outcome(r: Parsed<Json>, fits: bool, v: Json, rest: Bytes) {
    if fits then r == Ok(v, rest) else r.Err? && r.what == TooDeep
  }

  /** A scalar is read by its first byte. */
  lemma ScalarText(t: Tree, post: Bytes)
    requires WellFormed(t) && Delim(post) && !t.TArr? && !t.TObj?
    ensures var u := Print(t) + post;
            && u != [] && NoWs(u) && u[0] != LBRACE && u[0] != LBRACKET
            && (match t
                case TNull => u[0] == 0x6E && Literal(u, NULL, Null) == Ok(Null, post)
                case TBool(b) =>
                  if b then u[0] == 0x74 && Literal(u, TRUE, Bool(true)) == Ok(Bool(true), post)
                  else u[0] == 0x66 && Literal(u, FALSE, Bool(false)) == Ok(Bool(false), post)
                case TNumber(num) =>
                  u[0] != QUOTE && u[0] != 0x74 && u[0] != 0x66 && u[0] != 0x6E && ParseNumber(u) == Ok(Meaning(t), post)
                case TStr(ps) => u[0] == QUOTE && StringBody(u[1..], []) == Ok(Said(ps), post)
                case _ => true)
  {
    var u := Print(t) + post;
    hide StringBody, ParseNumber, NumeralText, StringText, Said;
    match t
    case TNull => assert u[|NULL|..] == post && NULL <= u;
    case TBool(b) =>
      var word := if b then TRUE else FALSE;
      assert u[|word|..] == post && word <= u;
    case TNumber(num) =>
      NumeralStarts(num);
      assert u[0] == NumeralText(num)[0];
      NumberBack(num, post);
    case TStr(ps) => StringBack(ps, post);
  }

  lemma ScalarBack(t: Tree, w: Bytes, post: Bytes, depth: nat)
    requires WellFormed(t) && Blank(w) && Delim(post) && !t.TArr? && !t.TObj?
    ensures Outcome(ParseValue(w + (Print(t) + post), depth), depth + 1 <= MAX_DEPTH, Meaning(t), post)
  {
    ScalarText(t, post);
    hide SkipWs, ParseNumber, Literal, StringBody, Print;
    SkipBlank(w, Print(t) + post);
  }

  /** Items with the first one's leading whitespace replaced by `lead`. */
  function ItemsText(items: seq<Item>, lead: Bytes): Bytes
    requires items != []
  {
    lead + Print(items[0].value) + items[0].after + (if |items| == 1 then [] else [COMMA] + PrintItems(items[1..]))
  }

  lemma ItemsTextIs(items: seq<Item>)
    requires items != []
    ensures PrintItems(items) == ItemsText(items, items[0].before)
  {
  }

  function MembersText(members: seq<Member>, lead: Bytes): Bytes
    requires members != []
  {
    var m := members[0];
    lead + StringText(m.key) + m.afterKey + [COLON] + PrintItem(m.item)
    + (if |members| == 1 then [] else [COMMA] + PrintMembers(members[1..]))
  }

  lemma MembersTextIs(members: seq<Member>)
    requires members != []
    ensures PrintMembers(members) == MembersText(members, members[0].before)
  {
  }

  lemma {:induction false} ValueBack(t: Tree, w: Bytes, post: Bytes, depth: nat)
    requires WellFormed(t) && Blank(w) && Delim(post)
    ensures Outcome(ParseValue(w + (Print(t) + post), depth), depth + Height(t) <= MAX_DEPTH, Meaning(t), post)
    decreases t, 1
  {
    match t
    case TArr(blank, items) => ArrayBack(t, w, post, depth);
    case TObj(blank, members) => ObjectBack(t, w, post, depth);
    case _ => ScalarBack(t, w, post, depth);
  }

  lemma ValueAt(w: Bytes, u: Bytes, depth: nat)
    requires Blank(w) && u != [] && depth < MAX_DEPTH && (u[0] == LBRACKET || u[0] == LBRACE)
    ensures ParseValue(w + u, depth) == if u[0] == LBRACKET then ParseArray(u, depth) else ParseObject(u, depth)
  {
    hide ParseArray, ParseObject, ParseNumber, Literal, StringBody;
    SkipBlank(w, u);
  }

  lemma TooDeepAt(t: Bytes, depth: nat)
    requires depth >= MAX_DEPTH
    ensures ParseValue(t, depth) == Err(TooDeep, |t|)
  {
  }

  lemma {:induction false} ArrayBack(t: Tree, w: Bytes, post: Bytes, depth: nat)
    requires WellFormed(t) && Blank(w) && Delim(post) && t.TArr?
    ensures Outcome(ParseValue(w + (Print(t) + post), depth), depth + Height(t) <= MAX_DEPTH, Meaning(t), post)
    decreases t, 0
  {
    hide ParseValue, ParseItems, ParseArray, SkipWs, PrintItems;
    var close := [RBRACKET] + post;
    var inner := if t.items == [] then t.blank else PrintItems(t.items);
    Enclosed(LBRACKET, inner, RBRACKET, post);
    hide Print, ItemsText;
    if depth >= MAX_DEPTH {
      TooDeepAt(w + (Print(t) + post), depth);
    } else {
      ValueAt(w, Print(t) + post, depth);
      if t.items == [] {
        OpenArray(t.blank, close, depth);
      } else {
        var it, body := t.items[0], ItemsText(t.items, []) + close;
        assert WellFormedItem(it);
        FirstItem(t.items, post);
        Assoc(it.before, ItemsText(t.items, []), close);
        OpenArray(it.before, body, depth);
        ItemsBack(t.items, [], post, depth + 1, []);
        assert [] + Meanings(t.items) == Meanings(t.items);
      }
    }
  }

  lemma Enclosed(open: Byte, inner: Bytes, close: Byte, post: Bytes)
    ensures [open] + inner + [close] + post == [open] + (inner + ([close] + post))
  {
  }

  lemma OpenArray(w: Bytes, rest: Bytes, depth: nat)
    requires Blank(w) && rest != [] && NoWs(rest)
    ensures ParseArray([LBRACKET] + (w + rest), depth)
         == if rest[0] == RBRACKET then Ok(Arr([]), rest[1..]) else ParseItems(rest, depth + 1, [])
  {
    hide ParseItems;
    assert ([LBRACKET] + (w + rest))[1..] == w + rest;
    SkipBlank(w, rest);
  }

  lemma OpenObject(w: Bytes, rest: Bytes, depth: nat)
    requires Blank(w) && rest != [] && NoWs(rest)
    ensures ParseObject([LBRACE] + (w + rest), depth)
         == if rest[0] == RBRACE then Ok(Obj(map[]), rest[1..]) else ParseMembers(rest, depth + 1, map[])
  {
    hide ParseMembers;
    assert ([LBRACE] + (w + rest))[1..] == w + rest;
    SkipBlank(w, rest);
  }

  lemma FirstItem(items: seq<Item>, post: Bytes)
    requires items != [] && WellFormedItem(items[0])
    ensures var t := ItemsText(items, []) + ([RBRACKET] + post);
            t != [] && NoWs(t) && t[0] != RBRACKET
    ensures PrintItems(items) == items[0].before + ItemsText(items, [])
  {
    PrintStarts(items[0].value);
    assert ItemsText(items, [])[0] == Print(items[0].value)[0];
    ItemsTextIs(items);
  }

  lemma Regroup(a: Bytes, b: Bytes, c: Bytes, d: Bytes, e: Bytes)
    ensures a + b + c + d + e == a + (b + (c + (d + e)))
  {
  }

  /** The text of the items up to the closing bracket, first item apart. */
  lemma ItemsShape(items: seq<Item>, lead: Bytes, close: Bytes)
    requires items != []
    ensures var tail := if |items| == 1 then close else [COMMA] + (PrintItems(items[1..]) + close);
            ItemsText(items, lead) + close == lead + (Print(items[0].value) + (items[0].after + tail))
  {
    hide Print, PrintItems;
    var it, more := items[0], items[1..];
    if |items| == 1 {
      Regroup(lead, Print(it.value), it.after, [], close);
      assert [] + close == close;
    } else {
      var rest := PrintItems(more);
      Regroup(lead, Print(it.value), it.after, [COMMA] + rest, close);
      assert ([COMMA] + rest) + close == [COMMA] + (rest + close);
    }
  }

  lemma DelimAfter(after: Bytes, tail: Bytes)
    requires Blank(after) && tail != [] && (tail[0] == COMMA || tail[0] == RBRACKET || tail[0] == RBRACE)
    ensures Delim(after + tail) && NoWs(tail)
  {
    assert (after + tail)[0] == if after == [] then tail[0] else after[0];
  }

  /** After a value, a comma or the closing bracket decides. */
  lemma ItemsStep(t: Bytes, depth: nat, a: seq<Json>)
    requires ParseValue(t, depth).Ok?
    ensures var v, u := ParseValue(t, depth).value, SkipWs(ParseValue(t, depth).rest);
            && (u != [] && u[0] == COMMA ==> ParseItems(t, depth, a) == ParseItems(u[1..], depth, a + [v]))
            && (u != [] && u[0] == RBRACKET ==> ParseItems(t, depth, a) == Ok(Arr(a + [v]), u[1..]))
  {
    hide ParseValue, SkipWs;
  }

  lemma AssocJson(a: seq<Json>, b: seq<Json>, c: seq<Json>)
    ensures a + b + c == a + (b + c)
  {
  }

  lemma {:induction false} ItemsBack(items: seq<Item>, lead: Bytes, post: Bytes, depth: nat, a: seq<Json>)
    requires items != [] && Blank(lead) && forall i :: 0 <= i < |items| ==> WellFormedItem(items[i])
    ensures Outcome(ParseItems(ItemsText(items, lead) + ([RBRACKET] + post), depth, a),
                    depth + ItemsHeight(items) <= MAX_DEPTH, Arr(a + Meanings(items)), post)
    decreases items
  {
    hide ParseValue, SkipWs, Print, WellFormed, Height, Meaning, ItemsText, PrintItems;
    var it, more := items[0], items[1..];
    var close := [RBRACKET] + post;
    var tail := if more == [] then close else [COMMA] + (PrintItems(more) + close);
    var text := ItemsText(items, lead) + close;
    ItemsShape(items, lead, close);
    DelimAfter(it.after, tail);
    ValueBack(it.value, lead, it.after + tail, depth);
    SkipBlank(it.after, tail);
    if ParseValue(text, depth).Ok? {
      ItemsStep(text, depth, a);
      hide ParseItems;
      if more != [] {
        assert tail[1..] == PrintItems(more) + close;
        ItemsTextIs(more);
        assert WellFormedItem(more[0]);
        ItemsBack(more, more[0].before, post, depth, a + [Meaning(it.value)]);
        AssocJson(a, [Meaning(it.value)], Meanings(more));
      } else {
        assert close[1..] == post;
        OnlyItem(items);
      }
    }
  }

  lemma OnlyItem(items: seq<Item>)
    requires |items| == 1
    ensures Meanings(items) == [Meaning(items[0].value)] && ItemsHeight(items) == Height(items[0].value)
  {
    hide Height, Meaning;
    assert items[1..] == [];
    assert Meanings([]) == [] && ItemsHeight([]) == 0;
  }

  lemma {:induction false} ObjectBack(t: Tree, w: Bytes, post: Bytes, depth: nat)
    requires WellFormed(t) && Blank(w) && Delim(post) && t.TObj?
    ensures Outcome(ParseValue(w + (Print(t) + post), depth), depth + Height(t) <= MAX_DEPTH, Meaning(t), post)
    decreases t, 0
  {
    hide ParseValue, ParseMembers, ParseObject, SkipWs, PrintMembers;
    var close := [RBRACE] + post;
    var inner := if t.members == [] then t.blank else PrintMembers(t.members);
    Enclosed(LBRACE, inner, RBRACE, post);
    hide Print, MembersText;
    if depth >= MAX_DEPTH {
      TooDeepAt(w + (Print(t) + post), depth);
    } else {
      ValueAt(w, Print(t) + post, depth);
      if t.members == [] {
        OpenObject(t.blank, close, depth);
      } else {
        var m, body := t.members[0], MembersText(t.members, []) + close;
        assert WellFormedMember(m);
        FirstMember(t.members);
        Assoc(m.before, MembersText(t.members, []), close);
        OpenObject(m.before, body, depth);
        MembersBack(t.members, [], post, depth + 1, map[]);
      }
    }
  }

  lemma FirstMember(members: seq<Member>)
    requires members != []
    ensures MembersText(members, []) != [] && MembersText(members, [])[0] == QUOTE
    ensures PrintMembers(members) == members[0].before + MembersText(members, [])
  {
    hide Print, PrintItem, PrintMembers;
    MembersTextIs(members);
    var m := members[0];
    assert StringText(m.key)[0] == QUOTE;
    hide StringText;
    var tail := if |members| == 1 then [] else [COMMA] + PrintMembers(members[1..]);
    Regroup(StringText(m.key), m.afterKey, [COLON], PrintItem(m.item), tail);
    Front(m.before, StringText(m.key), m.afterKey, [COLON], PrintItem(m.item), tail);
    assert [] + StringText(m.key) == StringText(m.key);
  }

  lemma Front(a: Bytes, b: Bytes, c: Bytes, d: Bytes, e: Bytes, f: Bytes)
    ensures a + b + c + d + e + f == a + (b + c + d + e + f)
  {
  }

  lemma KeyBack(key: Text, lead: Bytes, afterKey: Bytes, rest: Bytes)
    requires Blank(lead) && Blank(afterKey)
    ensures ParseKey(lead + (StringText(key) + (afterKey + ([COLON] + rest)))) == Ok(Said(key), rest)
  {
    hide StringBody, SkipWs, StringText, Said;
    var colon := [COLON] + rest;
    var text := StringText(key) + (afterKey + colon);
    StringBack(key, afterKey + colon);
    SkipBlank(lead, text);
    SkipBlank(afterKey, colon);
    assert colon[1..] == rest;
  }

  lemma {:induction false} MembersBack(members: seq<Member>, lead: Bytes, post: Bytes, depth: nat, o: map<Bytes, Json>)
    requires members != [] && Blank(lead) && forall i :: 0 <= i < |members| ==> WellFormedMember(members[i])
    ensures Outcome(ParseMembers(MembersText(members, lead) + ([RBRACE] + post), depth, o),
                    depth + MembersHeight(members) <= MAX_DEPTH, Obj(Bindings(members, o)), post)
    decreases members
  {
    hide ParseValue, ParseKey, SkipWs, Print, WellFormed, Height, Meaning, StringText, Said;
    var m, more := members[0], members[1..];
    var it, close := m.item, [RBRACE] + post;
    var tail := if more == [] then close else [COMMA] + (PrintMembers(more) + close);
    var afterColon := it.before + (Print(it.value) + (it.after + tail));
    var text := MembersText(members, lead) + close;
    assert text == lead + (StringText(m.key) + (m.afterKey + ([COLON] + afterColon)));
    KeyBack(m.key, lead, m.afterKey, afterColon);
    assert WellFormedItem(it);
    assert Delim(it.after + tail);
    ValueBack(it.value, it.before, it.after + tail, depth);
    SkipBlank(it.after, tail);
    assert close[1..] == post;
    if more != [] {
      assert tail[1..] == PrintMembers(more) + close;
      MembersTextIs(more);
      assert WellFormedMember(more[0]);
      MembersBack(more, more[0].before, post, depth, o[Said(m.key) := Meaning(it.value)]);
    } else {
      assert MembersHeight(more) == 0;
    }
  }

  // ---- whole documents ----

  /** A document printed with any layout, with or without a byte-order mark and surrounded by any
      whitespace, parses back to what it denotes exactly when it nests at most 64 levels; deeper
      ones are refused as too deep. */
  lemma DocumentBack(t: Tree, before: Bytes, after: Bytes, bom: bool)
    requires WellFormed(t) && Blank(before) && Blank(after)
    ensures Outcome(ParseDocument((if bom then BOM else []) + (before + (Print(t) + after))),
                    Height(t) <= MAX_DEPTH, Meaning(t), [])
  {
    var body := before + (Print(t) + after);
    var text := (if bom then BOM else []) + body;
    PrintStarts(t);
    NoBom(t, before, after);
    assert (if BOM <= text then text[3..] else text) == body;
    hide ParseValue, Print, Height, Meaning, WellFormed, SkipWs;
    ValueBack(t, before, after, 0);
    SkipBlank(after, []);
    assert after + [] == after;
  }

  lemma NoBom(t: Tree, before: Bytes, after: Bytes)
    requires WellFormed(t) && Blank(before)
    ensures !(BOM <= before + (Print(t) + after))
  {
    if t.TNumber? { NumeralStarts(t.num); }
    var text := before + (Print(t) + after);
    assert text[0] == if before == [] then Print(t)[0] else before[0];
  }

  /** Quoting any byte string and parsing it returns the string. */
  lemma QuoteBack(s: Bytes)
    ensures ParseDocument(Quoted(s)) == Ok(Str(s), [])
  {
    var t := Quoted(s);
    assert t[0] == QUOTE && t + [] == t;
    QuotedBack(s, []);
    assert SkipWs(t) == t && SkipWs([]) == [];
    hide StringBody, Quoted;
  }

  // ---- the writer's spelling ----

  /** The piece that the writer spells a byte with. */
  function PieceOf(c: Byte): (p: Piece)
    ensures IsPiece(p)
  {
    if c == QUOTE || c == BACKSLASH then Short(c)
    else if c == 0x0A then Short(0x6E) else if c == 0x0D then Short(0x72) else if c == 0x09 then Short(0x74)
    else if c == 0x08 then Short(0x62) else if c == 0x0C then Short(0x66)
    else if c < 0x20 then Unit(HexDigits(c))
    else Plain(c)
  }

  function PiecesOf(s: Bytes): (ps: Text)
    ensures |ps| == |s|
  {
    if s == [] then [] else [PieceOf(s[0])] + PiecesOf(s[1..])
  }

  lemma {:induction false} EscapedCons(s: Bytes)
    requires s != []
    ensures Escaped(s) == EscapedByte(s[0]) + Escaped(s[1..])
  {
    hide EscapedByte;
    if |s| > 1 {
      var n := |s| - 1;
      EscapedCons(s[..n]);
      assert s[..n][1..] == s[1..][..n - 1] && s[1..][n - 1] == s[n];
    } else {
      assert s[..0] == [];
    }
  }

  lemma PieceOfIs(c: Byte)
    ensures PieceText(PieceOf(c)) == EscapedByte(c)
    ensures PieceOf(c).Unit? ==> HexNumber(PieceOf(c).digits) == c
  {
    if PieceOf(c).Unit? {
      Hex4Back(c, []);
      HexRead(HexDigits(c), []);
    }
  }

  lemma SaidCons(c: Byte, more: Text)
    ensures ArePieces([PieceOf(c)] + more) && Said([PieceOf(c)] + more) == [c] + Said(more)
  {
    PieceOfIs(c);
    var ps := [PieceOf(c)] + more;
    assert ps[1..] == more && ps[0] == PieceOf(c);
    hide HexNumber;
  }

  /** What `json_quote` writes is a string of the grammar, and it says what was quoted. */
  lemma {:induction false} QuotedIsText(s: Bytes)
    ensures PiecesText(PiecesOf(s)) == Escaped(s) && Said(PiecesOf(s)) == s
    ensures StringText(PiecesOf(s)) == Quoted(s)
  {
    hide PieceText, EscapedByte, Said, PieceOf;
    if s == [] {
      SaidNothing();
    } else {
      QuotedIsText(s[1..]);
      EscapedCons(s);
      hide Escaped;
      PieceOfIs(s[0]);
      SaidCons(s[0], PiecesOf(s[1..]));
      var ps := PiecesOf(s);
      assert ps[1..] == PiecesOf(s[1..]);
      assert s == [s[0]] + s[1..];
    }
  }

  lemma SaidNothing() ensures Said([]) == [] {}
}

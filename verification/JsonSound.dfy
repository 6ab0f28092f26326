/**
 The parser of core/json.cpp accepts nothing but the grammar: whatever it accepts is a well-formed
 document of at most 64 levels, written with some layout, and it returns what that document means.
 */
module JsonSound {
  import opened JsonText
  import opened JsonGrammar
  import opened JsonScalars
  import opened JsonDocuments

  lemma {:induction false} SkipSplit(t: Bytes) returns (w: Bytes)
    ensures Blank(w) && t == w + SkipWs(t)
  {
    if t != [] && IsWs(t[0]) {
      var v := SkipSplit(t[1..]);
      w := [t[0]] + v;
      assert t == [t[0]] + t[1..];
    } else {
      w := [];
    }
  }

  /** What a parse that succeeded says about the text: it is this tree and the rest. */
  ghost predicate Reads(t: Bytes, r: Parsed<Json>, tree: Tree, depth: nat) {
    r.Ok? && WellFormed(tree) && t == Print(tree) + r.rest && Meaning(tree) == r.value && depth + Height(tree) <= MAX_DEPTH
  }

  // ---- scalars ----

  lemma StringReads(u: Bytes, depth: nat) returns (tree: Tree)
    requires u != [] && u[0] == QUOTE && StringBody(u[1..], []).Ok? && depth < MAX_DEPTH
    ensures var r := StringBody(u[1..], []); Reads(u, Ok(Str(r.value), r.rest), tree, depth)
  {
    var ps := StringSplit(u[1..], []);
    var rest := StringBody(u[1..], []).rest;
    hide StringBody, Said, PiecesText;
    tree := TStr(ps);
    assert u == [QUOTE] + u[1..];
    Assoc([QUOTE], PiecesText(ps), [QUOTE] + rest);
    Assoc([QUOTE] + PiecesText(ps), [QUOTE], rest);
    assert [] + Said(ps) == Said(ps);
  }

  lemma LiteralReads(u: Bytes, word: Bytes, tree: Tree, depth: nat)
    requires word != [] && (tree.TNull? || tree.TBool?) && Print(tree) == word && depth < MAX_DEPTH
    requires Literal(u, word, Meaning(tree)).Ok?
    ensures Reads(u, Literal(u, word, Meaning(tree)), tree, depth)
  {
    assert u == word + u[|word|..];
  }

  lemma NumberReads(u: Bytes, depth: nat) returns (tree: Tree)
    requires ParseNumber(u).Ok? && depth < MAX_DEPTH
    ensures Reads(u, ParseNumber(u), tree, depth)
  {
    var n := NumeralSplit(u);
    hide ScanNumber, NumeralText, IsNumeral;
    tree := TNumber(n);
    var rest := ParseNumber(u).rest;
    assert u[..|u| - |rest|] == NumeralText(n);
  }

  // ---- values ----

  lemma {:induction false} ValueReads(t: Bytes, depth: nat) returns (w: Bytes, tree: Tree)
    requires ParseValue(t, depth).Ok?
    ensures Blank(w) && |w| <= |t| && t[..|w|] == w && Reads(t[|w|..], ParseValue(t, depth), tree, depth)
    decreases |t|, 3
  {
    w := SkipSplit(t);
    var u := SkipWs(t);
    assert t[|w|..] == u && t[..|w|] == w;
    hide SkipWs, Literal, ParseNumber, StringBody, Reads;
    if u[0] == LBRACE {
      tree := ObjectReads(u, depth);
    } else if u[0] == LBRACKET {
      tree := ArrayReads(u, depth);
    } else if u[0] == QUOTE {
      tree := StringReads(u, depth);
    } else if u[0] == 0x74 {
      tree := TBool(true);
      LiteralReads(u, TRUE, tree, depth);
    } else if u[0] == 0x66 {
      tree := TBool(false);
      LiteralReads(u, FALSE, tree, depth);
    } else if u[0] == 0x6E {
      tree := TNull;
      LiteralReads(u, NULL, tree, depth);
    } else {
      tree := NumberReads(u, depth);
    }
  }

  /** Items up to the closing bracket. */
  ghost predicate ReadsItems(t: Bytes, r: Parsed<Json>, items: seq<Item>, depth: nat, a: seq<Json>) {
    && r.Ok? && items != [] && (forall i :: 0 <= i < |items| ==> WellFormedItem(items[i]))
    && t == PrintItems(items) + ([RBRACKET] + r.rest)
    && r.value == Arr(a + Meanings(items)) && depth + ItemsHeight(items) <= MAX_DEPTH
  }

  /** One more item in front. */
  lemma ItemBefore(it: Item, more: seq<Item>, tail: Bytes)
    requires more != []
    ensures PrintItems([it] + more) + tail == PrintItem(it) + ([COMMA] + (PrintItems(more) + tail))
    ensures Meanings([it] + more) == [Meaning(it.value)] + Meanings(more)
    ensures ItemsHeight([it] + more) == Max(Height(it.value), ItemsHeight(more))
  {
    hide PrintItem, Height, Meaning;
    var items := [it] + more;
    assert items[1..] == more;
    Assoc(PrintItem(it) + [COMMA], PrintItems(more), tail);
    Assoc(PrintItem(it), [COMMA], PrintItems(more) + tail);
  }

  lemma OneItem(it: Item)
    ensures PrintItems([it]) == PrintItem(it) && Meanings([it]) == [Meaning(it.value)] && ItemsHeight([it]) == Height(it.value)
  {
    hide Print, Height, Meaning;
    assert Meanings([it][1..]) == [] && ItemsHeight([it][1..]) == 0;
  }

  /** The text of an item: blanks, a value, blanks, and what follows. */
  lemma ItemText(t: Bytes, w: Bytes, tree: Tree, after: Bytes, u: Bytes)
    requires |w| <= |t| && t[..|w|] == w && t[|w|..] == Print(tree) + (after + u)
    ensures t == PrintItem(Item(w, tree, after)) + u
  {
    hide Print;
    assert t == w + t[|w|..];
    Assoc(w + Print(tree), after, u);
    Assoc(w, Print(tree), after + u);
  }

  /** A value and the blanks around it. */
  lemma {:induction false} ItemReads(t: Bytes, depth: nat) returns (it: Item)
    requires ParseValue(t, depth).Ok?
    ensures var r := ParseValue(t, depth);
            && WellFormedItem(it) && t == PrintItem(it) + SkipWs(r.rest)
            && r.value == Meaning(it.value) && depth + Height(it.value) <= MAX_DEPTH
    decreases |t|, 4
  {
    var w, tree := ValueReads(t, depth);
    hide ParseValue, SkipWs, Print, Height, Meaning, WellFormed;
    var rest := ParseValue(t, depth).rest;
    var after := SkipSplit(rest);
    it := Item(w, tree, after);
    ItemText(t, w, tree, after, SkipWs(rest));
  }

  lemma {:induction false} ItemsRead(t: Bytes, depth: nat, a: seq<Json>) returns (items: seq<Item>)
    requires ParseItems(t, depth, a).Ok?
    ensures ReadsItems(t, ParseItems(t, depth, a), items, depth, a)
    decreases |t|, 5
  {
    hide ParseValue, SkipWs, Height, Meaning, WellFormedItem, PrintItem;
    var it := ItemReads(t, depth);
    var v := ParseValue(t, depth).value;
    var u := SkipWs(ParseValue(t, depth).rest);
    assert u == [u[0]] + u[1..];
    if u[0] == COMMA {
      var more := ItemsRead(u[1..], depth, a + [v]);
      items := [it] + more;
      var end := ParseItems(t, depth, a).rest;
      hide ParseItems;
      ItemBefore(it, more, [RBRACKET] + end);
      assert (a + [v]) + Meanings(more) == a + Meanings(items);
    } else {
      items := [it];
      OneItem(it);
    }
  }

  lemma WidenFirst(items: seq<Item>, blank: Bytes) returns (wider: seq<Item>)
    requires items != [] && Blank(blank) && forall i :: 0 <= i < |items| ==> WellFormedItem(items[i])
    ensures wider != [] && (forall i :: 0 <= i < |wider| ==> WellFormedItem(wider[i]))
    ensures PrintItems(wider) == blank + PrintItems(items)
    ensures Meanings(wider) == Meanings(items) && ItemsHeight(wider) == ItemsHeight(items)
  {
    hide Print, Height, Meaning, WellFormed;
    var first := items[0].(before := blank + items[0].before);
    wider := [first] + items[1..];
    assert wider[1..] == items[1..];
    assert PrintItem(first) == blank + PrintItem(items[0]);
    if |items| > 1 {
      Assoc(blank, PrintItem(items[0]), [COMMA]);
      Assoc(blank, PrintItem(items[0]) + [COMMA], PrintItems(items[1..]));
    }
  }

  lemma {:induction false} ArrayReads(t: Bytes, depth: nat) returns (tree: Tree)
    requires t != [] && t[0] == LBRACKET && ParseArray(t, depth).Ok? && depth < MAX_DEPTH
    ensures Reads(t, ParseArray(t, depth), tree, depth)
    decreases |t|, 2
  {
    hide SkipWs, ParseItems;
    var blank := SkipSplit(t[1..]);
    var u, rest := SkipWs(t[1..]), ParseArray(t, depth).rest;
    assert t == [LBRACKET] + t[1..];
    if u != [] && u[0] == RBRACKET {
      tree := TArr(blank, []);
      assert u == [RBRACKET] + rest && [] + u == u && blank + [] == blank;
      Bracketed(LBRACKET, blank, [], RBRACKET, rest);
      EmptyItems();
    } else {
      var items := ItemsRead(u, depth + 1, []);
      hide ParseArray;
      var wider := WidenFirst(items, blank);
      tree := TArr([], wider);
      hide PrintItems, Meanings, ItemsHeight;
      Bracketed(LBRACKET, blank, PrintItems(items), RBRACKET, rest);
      assert [] + Meanings(items) == Meanings(items);
    }
  }

  lemma Bracketed(open: Byte, blank: Bytes, inner: Bytes, close: Byte, rest: Bytes)
    ensures [open] + (blank + (inner + ([close] + rest))) == [open] + (blank + inner) + [close] + rest
  {
    Assoc(blank, inner, [close] + rest);
    Assoc([open], blank + inner, [close] + rest);
    Assoc([open] + (blank + inner), [close], rest);
  }

  lemma EmptyItems() ensures Meanings([]) == [] && ItemsHeight([]) == 0 && Bindings([], map[]) == map[] && MembersHeight([]) == 0 {}

  // ---- objects ----

  lemma KeyReads(t: Bytes) returns (before: Bytes, key: Text, afterKey: Bytes)
    requires ParseKey(t).Ok?
    ensures Blank(before) && Blank(afterKey) && Said(key) == ParseKey(t).value
    ensures t == before + (StringText(key) + (afterKey + ([COLON] + ParseKey(t).rest)))
  {
    before := SkipSplit(t);
    var u := SkipWs(t);
    var tree := StringReads(u, 0);
    key := tree.text;
    var rest := StringBody(u[1..], []).rest;
    afterKey := SkipSplit(rest);
    var v := SkipWs(rest);
    assert v == [COLON] + v[1..];
  }

  ghost predicate ReadsMembers(t: Bytes, r: Parsed<Json>, members: seq<Member>, depth: nat, o: map<Bytes, Json>) {
    && r.Ok? && members != [] && (forall i :: 0 <= i < |members| ==> WellFormedMember(members[i]))
    && t == PrintMembers(members) + ([RBRACE] + r.rest)
    && r.value == Obj(Bindings(members, o)) && depth + MembersHeight(members) <= MAX_DEPTH
  }

  lemma MemberBefore(m: Member, more: seq<Member>, tail: Bytes, o: map<Bytes, Json>)
    requires more != []
    ensures PrintMembers([m] + more) + tail == PrintMember(m) + ([COMMA] + (PrintMembers(more) + tail))
    ensures Bindings([m] + more, o) == Bindings(more, o[Said(m.key) := Meaning(m.item.value)])
    ensures MembersHeight([m] + more) == Max(Height(m.item.value), MembersHeight(more))
  {
    hide Print, Height, Meaning, StringText, Said, PrintMember;
    var members := [m] + more;
    assert members[1..] == more;
    Assoc(PrintMember(m) + [COMMA], PrintMembers(more), tail);
    Assoc(PrintMember(m), [COMMA], PrintMembers(more) + tail);
  }

  lemma OneMember(m: Member, o: map<Bytes, Json>)
    ensures PrintMembers([m]) == PrintMember(m) && Bindings([m], o) == o[Said(m.key) := Meaning(m.item.value)]
    ensures MembersHeight([m]) == Height(m.item.value)
  {
    hide Print, Height, Meaning, StringText, Said, PrintMember;
    assert [m][1..] == [];
    assert Bindings([], o[Said(m.key) := Meaning(m.item.value)]) == o[Said(m.key) := Meaning(m.item.value)];
  }

  lemma MemberText(t: Bytes, before: Bytes, key: Text, afterKey: Bytes, it: Item, u: Bytes)
    requires t == before + (StringText(key) + (afterKey + ([COLON] + (PrintItem(it) + u))))
    ensures t == PrintMember(Member(before, key, afterKey, it)) + u
  {
    hide StringText, PrintItem;
    var s, x := StringText(key), PrintItem(it);
    Assoc(before + s + afterKey + [COLON], x, u);
    Assoc(before + s + afterKey, [COLON], x + u);
    Assoc(before + s, afterKey, [COLON] + (x + u));
    Assoc(before, s, afterKey + ([COLON] + (x + u)));
  }

  /** Key, colon, value and the blanks behind it. */
  lemma {:induction false} MemberReads(t: Bytes, depth: nat) returns (m: Member)
    requires ParseMember(t, depth).Ok?
    ensures var r := ParseMember(t, depth);
            && WellFormedMember(m) && t == PrintMember(m) + SkipWs(r.rest)
            && r.value == (Said(m.key), Meaning(m.item.value)) && depth + Height(m.item.value) <= MAX_DEPTH
    decreases |t|, 4
  {
    var before, key, afterKey := KeyReads(t);
    var afterColon := ParseKey(t).rest;
    var w, tree := ValueReads(afterColon, depth);
    var rest := ParseValue(afterColon, depth).rest;
    var after := SkipSplit(rest);
    var u := SkipWs(rest);
    ItemText(afterColon, w, tree, after, u);
    hide ParseKey, ParseValue, SkipWs, Print, Height, Meaning, WellFormed, Said, StringText;
    var it := Item(w, tree, after);
    m := Member(before, key, afterKey, it);
    MemberText(t, before, key, afterKey, it, u);
  }

  lemma {:induction false} MembersRead(t: Bytes, depth: nat, o: map<Bytes, Json>) returns (members: seq<Member>)
    requires ParseMembers(t, depth, o).Ok?
    ensures ReadsMembers(t, ParseMembers(t, depth, o), members, depth, o)
    decreases |t|, 5
  {
    hide ParseMember, SkipWs, Height, Meaning, WellFormedMember, Said, PrintMember;
    var m := MemberReads(t, depth);
    var r := ParseMember(t, depth);
    var u := SkipWs(r.rest);
    assert u == [u[0]] + u[1..];
    if u[0] == COMMA {
      var more := MembersRead(u[1..], depth, o[r.value.0 := r.value.1]);
      members := [m] + more;
      var end := ParseMembers(t, depth, o).rest;
      hide ParseMembers;
      MemberBefore(m, more, [RBRACE] + end, o);
    } else {
      members := [m];
      OneMember(m, o);
    }
  }

  lemma WidenFirstMember(members: seq<Member>, blank: Bytes) returns (wider: seq<Member>)
    requires members != [] && Blank(blank) && forall i :: 0 <= i < |members| ==> WellFormedMember(members[i])
    ensures wider != [] && (forall i :: 0 <= i < |wider| ==> WellFormedMember(wider[i]))
    ensures PrintMembers(wider) == blank + PrintMembers(members)
    ensures Bindings(wider, map[]) == Bindings(members, map[]) && MembersHeight(wider) == MembersHeight(members)
  {
    hide Print, Height, Meaning, WellFormed, StringText, Said, PrintItem;
    var m := members[0];
    var first := m.(before := blank + m.before);
    wider := [first] + members[1..];
    assert wider[1..] == members[1..];
    Front(blank, m.before, StringText(m.key), m.afterKey, [COLON], PrintItem(m.item));
    assert PrintMember(first) == blank + PrintMember(m);
    if |members| > 1 {
      Assoc(blank, PrintMember(m), [COMMA]);
      Assoc(blank, PrintMember(m) + [COMMA], PrintMembers(members[1..]));
    }
  }

  lemma {:induction false} ObjectReads(t: Bytes, depth: nat) returns (tree: Tree)
    requires t != [] && t[0] == LBRACE && ParseObject(t, depth).Ok? && depth < MAX_DEPTH
    ensures Reads(t, ParseObject(t, depth), tree, depth)
    decreases |t|, 2
  {
    hide SkipWs, ParseMembers;
    var blank := SkipSplit(t[1..]);
    var u, rest := SkipWs(t[1..]), ParseObject(t, depth).rest;
    assert t == [LBRACE] + t[1..];
    if u != [] && u[0] == RBRACE {
      tree := TObj(blank, []);
      assert u == [RBRACE] + rest && [] + u == u && blank + [] == blank;
      Bracketed(LBRACE, blank, [], RBRACE, rest);
      EmptyItems();
    } else {
      var members := MembersRead(u, depth + 1, map[]);
      hide ParseObject;
      var wider := WidenFirstMember(members, blank);
      tree := TObj([], wider);
      hide PrintMembers, Bindings, MembersHeight;
      Bracketed(LBRACE, blank, PrintMembers(members), RBRACE, rest);
    }
  }

  // ---- whole documents ----

  /** A document as written: an optional byte-order mark, blanks, a value, blanks. */
  datatype Document = Document(bom: bool, before: Bytes, tree: Tree, after: Bytes)

  function DocumentText(d: Document): Bytes {
    (if d.bom then BOM else []) + (d.before + (Print(d.tree) + d.after))
  }

  /** The text is this document, of at most 64 levels, and means v. */
  ghost predicate Denotes(text: Bytes, d: Document, v: Json) {
    && WellFormed(d.tree) && Blank(d.before) && Blank(d.after) && Height(d.tree) <= 64
    && text == DocumentText(d) && Meaning(d.tree) == v
  }

  lemma DocumentReads(text: Bytes) returns (d: Document)
    requires ParseDocument(text).Ok?
    ensures Denotes(text, d, ParseDocument(text).value)
  {
    var bom := BOM <= text;
    var t := if bom then text[3..] else text;
    assert text == (if bom then BOM else []) + t;
    var w, tree := ValueReads(t, 0);
    var rest := ParseValue(t, 0).rest;
    var after := SkipSplit(rest);
    d := Document(bom, w, tree, after);
    hide ParseValue, SkipWs, Print, WellFormed, Height, Meaning;
    assert after + [] == after;
    assert t == w + t[|w|..];
  }

  /** The parser accepts a text with value v exactly when the text is a document of the grammar that
      means v. */
  lemma AcceptsExactly(text: Bytes, v: Json)
    ensures ParseDocument(text) == Ok(v, []) <==> exists d :: Denotes(text, d, v)
  {
    if ParseDocument(text) == Ok(v, []) {
      var d := DocumentReads(text);
    }
    forall d | Denotes(text, d, v) ensures ParseDocument(text) == Ok(v, []) {
      DocumentBack(d.tree, d.before, d.after, d.bom);
    }
  }
}

/**
 Which lines are requests: the kind of a line of cli/serve.cpp, from the text of the line.
 */
module InboxKinds {
  import opened JsonText
  import opened JsonGrammar
  import opened JsonSound
  import opened JsonDocuments
  import opened Inbox

  lemma Words()
    ensures OP == Ascii("op") && CANCEL == Ascii("cancel") && GENERATE == Ascii("generate") && QUIT == Ascii("quit")
  {
  }

  /** Member i is the last one with this key. */
  ghost predicate LastMember(members: seq<Member>, key: seq<int>, i: nat) {
    i < |members| && Said(members[i].key) == key && forall j :: i < j < |members| ==> Said(members[j].key) != key
  }

  /** A key has the value of its last member. */
  lemma {:induction false} BindingsLast(members: seq<Member>, o: map<Bytes, Json>, key: Bytes, i: nat)
    requires LastMember(members, key, i)
    ensures key in Bindings(members, o) && Bindings(members, o)[key] == Meaning(members[i].item.value)
  {
    hide Said, Meaning;
    var o' := o[Said(members[0].key) := Meaning(members[0].item.value)];
    if i > 0 {
      assert forall j :: 0 <= j < |members| - 1 ==> members[1..][j] == members[j + 1];
      BindingsLast(members[1..], o', key, i - 1);
    } else {
      BindingsWithout(members[1..], o', key);
    }
  }

  lemma {:induction false} BindingsWithout(members: seq<Member>, o: map<Bytes, Json>, key: Bytes)
    requires forall j :: 0 <= j < |members| ==> Said(members[j].key) != key
    ensures key in Bindings(members, o) <==> key in o
    ensures key in o ==> Bindings(members, o)[key] == o[key]
  {
    hide Said, Meaning;
    if members != [] {
      BindingsWithout(members[1..], o[Said(members[0].key) := Meaning(members[0].item.value)], key);
    }
  }

  lemma {:induction false} LastOf(members: seq<Member>, key: Bytes) returns (i: nat)
    requires exists j :: 0 <= j < |members| && Said(members[j].key) == key
    ensures LastMember(members, key, i)
  {
    hide Said;
    var n := |members| - 1;
    if Said(members[n].key) == key {
      i := n;
    } else {
      var j :| 0 <= j < |members| && Said(members[j].key) == key;
      assert members[..n][j] == members[j];
      i := LastOf(members[..n], key);
    }
  }

  /** The line is a JSON object, with any layout and spelling, whose last "op" member is this string. */
  ghost predicate Asks(line: Bytes, word: seq<int>, d: Document, i: nat) {
    && d.tree.TObj? && Denotes(line, d, Meaning(d.tree))
    && LastMember(d.tree.members, Ascii("op"), i)
    && Meaning(d.tree.members[i].item.value).Str? && Meaning(d.tree.members[i].item.value).s == word
  }

  /** A nonempty op is read off a line exactly when the line asks for it. */
  lemma OpExactly(line: Bytes, word: Bytes)
    requires word != []
    ensures OpOf(line) == word <==> exists d, i :: Asks(line, word, d, i)
  {
    hide Denotes, ParseDocument;
    Words();
    if OpOf(line) == word {
      var d, i := AskedFor(line);
      assert Asks(line, word, d, i);
    }
    forall d, i | Asks(line, word, d, i) ensures OpOf(line) == word {
      AcceptsExactly(line, Meaning(d.tree));
      BindingsLast(d.tree.members, map[], OP, i);
    }
  }

  lemma AskedFor(line: Bytes) returns (d: Document, i: nat)
    requires OpOf(line) != []
    ensures Asks(line, OpOf(line), d, i)
  {
    Words();
    d := DocumentReads(line);
    hide ParseDocument;
    var v := ParseDocument(line).value;
    assert v.Obj? && Meaning(d.tree) == v;
    ObjectOnly(d.tree);
    var members := d.tree.members;
    if forall j :: 0 <= j < |members| ==> Said(members[j].key) != OP { BindingsWithout(members, map[], OP); }
    i := LastOf(members, OP);
    BindingsLast(members, map[], OP, i);
  }

  lemma ObjectOnly(t: Tree)
    requires Meaning(t).Obj?
    ensures t.TObj? && Meaning(t) == Obj(Bindings(t.members, map[]))
  {
  }

  /** Nothing but spaces and tabs. */
  ghost predicate Empty(line: Bytes) { forall i :: 0 <= i < |line| ==> line[i] == ' ' as int || line[i] == '\t' as int }

  /** A line that asks for something is not empty. */
  lemma AskingIsNotEmpty(line: Bytes, word: seq<int>, d: Document, i: nat)
    requires Asks(line, word, d, i)
    ensures !Empty(line)
  {
    var at := (if d.bom then 3 else 0) + |d.before|;
    assert line == DocumentText(d);
    assert line[at] == LBRACE;
  }

  /** The line asks for this. */
  ghost predicate Requests(line: Bytes, word: seq<int>) { exists d, i :: Asks(line, word, d, i) }

  lemma RequestIs(line: Bytes, word: Bytes)
    requires word != []
    ensures Requests(line, word) <==> OpOf(line) == word
    ensures Requests(line, word) ==> !Empty(line)
  {
    OpExactly(line, word);
    hide Asks;
    if Requests(line, word) {
      var d, i :| Asks(line, word, d, i);
      AskingIsNotEmpty(line, word, d, i);
    }
  }

  /** Every line has the kind that its text asks for; every other line that is not empty is handed
      on. */
  lemma KindsExactly(line: Bytes)
    ensures KindOf(line) == Blank <==> Empty(line)
    ensures KindOf(line) == Cancel <==> Requests(line, Ascii("cancel"))
    ensures KindOf(line) == Generate <==> Requests(line, Ascii("generate"))
    ensures KindOf(line) == Quit <==> Requests(line, Ascii("quit"))
  {
    Words();
    Apart();
    RequestIs(line, CANCEL);
    RequestIs(line, GENERATE);
    RequestIs(line, QUIT);
    hide OpOf, Requests, Ascii;
  }

  lemma Apart()
    ensures CANCEL != GENERATE && GENERATE != QUIT && QUIT != CANCEL && CANCEL != [] && GENERATE != [] && QUIT != []
  {
  }

  // ---- what is queued, from the text of the lines ----

  /** A line is handed to the engine unless it is empty or a cancel. */
  ghost function OneHanded(line: Bytes): seq<Bytes> {
    if Empty(line) || Requests(line, Ascii("cancel")) then [] else [line]
  }

  ghost function Handed(lines: seq<Bytes>): seq<Bytes> {
    if lines == [] then [] else OneHanded(lines[0]) + Handed(lines[1..])
  }

  function LinesOf(items: seq<Request>): (r: seq<Bytes>)
    ensures |r| == |items|
  {
    seq(|items|, i requires 0 <= i < |items| => items[i].line)
  }

  lemma {:induction false} HandedSnoc(lines: seq<Bytes>, line: Bytes)
    ensures Handed(lines + [line]) == Handed(lines) + OneHanded(line)
  {
    hide OneHanded;
    var all := lines + [line];
    if lines == [] {
      assert all[1..] == [] && all[0] == line;
      assert OneHanded(line) + [] == OneHanded(line) == [] + OneHanded(line);
    } else {
      assert all[1..] == lines[1..] + [line] && all[0] == lines[0];
      HandedSnoc(lines[1..], line);
      Assoc(OneHanded(lines[0]), Handed(lines[1..]), OneHanded(line));
    }
  }

  lemma Assoc(a: seq<Bytes>, b: seq<Bytes>, c: seq<Bytes>)
    ensures a + (b + c) == (a + b) + c
  {
  }

  lemma OneHandedIs(line: Bytes)
    ensures OneHanded(line) == if KindOf(line) == Blank || KindOf(line) == Cancel then [] else [line]
  {
    KindsExactly(line);
    hide KindOf, Requests, Ascii, Empty;
  }

  /** The queued items are exactly the handed lines, in order. */
  lemma {:induction false} ItemsAreLines(lines: seq<Bytes>)
    ensures LinesOf(Items(lines)) == Handed(lines)
  {
    hide KindOf, OneHanded;
    if lines == [] {
      assert LinesOf([]) == [];
    } else {
      var n := |lines| - 1;
      var before, line := lines[..n], lines[n];
      ItemsAreLines(before);
      OneHandedIs(line);
      HandedSnoc(before, line);
      assert before + [line] == lines;
      hide Handed;
      var items := Items(before);
      assert Items(lines) == items || exists num :: Items(lines) == items + [Request(line, num, false)];
      forall num: nat ensures LinesOf(items + [Request(line, num, false)]) == LinesOf(items) + [line] {}
      assert LinesOf(items) + [] == LinesOf(items);
    }
  }

  /** None of the first n lines asks to quit. */
  ghost predicate NoQuit(input: seq<Bytes>, n: nat)
    requires n <= |input|
  {
    forall j :: 0 <= j < n ==> !Requests(input[j], Ascii("quit"))
  }

  lemma NoQuitCons(input: seq<Bytes>, n: nat)
    requires 1 <= n <= |input|
    ensures NoQuit(input, n) <==> !Requests(input[0], Ascii("quit")) && NoQuit(input[1..], n - 1)
  {
    hide Requests, Ascii;
    if !Requests(input[0], Ascii("quit")) && NoQuit(input[1..], n - 1) {
      forall j | 0 <= j < n ensures !Requests(input[j], Ascii("quit")) {
        if j > 0 { assert input[1..][j - 1] == input[j]; }
      }
    }
  }

  /** The reader hears its input up to and including the first quit. */
  lemma {:induction false} HeardExactly(input: seq<Bytes>, i: nat)
    requires i < |input|
    ensures i < Heard(input) <==> NoQuit(input, i)
  {
    KindsExactly(input[0]);
    hide KindOf, Requests, Ascii;
    if i > 0 {
      NoQuitCons(input, i);
      HeardExactly(input[1..], i - 1);
    }
  }
}

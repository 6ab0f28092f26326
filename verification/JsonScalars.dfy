/**
 Numbers and strings: the scanner of core/json.cpp reads exactly what the grammar writes.
 */
module JsonScalars {
  import opened JsonText
  import opened JsonGrammar

  /** What may follow a value inside a document. */
  ghost predicate Delim(t: Bytes) {
    t == [] || IsWs(t[0]) || t[0] == COMMA || t[0] == RBRACKET || t[0] == RBRACE
  }

  lemma Assoc(a: Bytes, b: Bytes, c: Bytes)
    ensures (a + b) + c == a + (b + c)
  {
  }

  // ---- numbers ----

  ghost predicate NoDigit(t: Bytes) { t == [] || !IsDigit(t[0]) }

  lemma {:induction false} DigitsRead(d: Bytes, t: Bytes)
    requires Digits(d) && NoDigit(t)
    ensures SkipDigits(d + t) == t
  {
    if d == [] {
      assert d + t == t;
    } else {
      assert (d + t)[1..] == d[1..] + t;
      DigitsRead(d[1..], t);
    }
  }

  lemma {:induction false} DigitsSplit(t: Bytes) returns (d: Bytes)
    ensures Digits(d) && t == d + SkipDigits(t)
  {
    if t != [] && IsDigit(t[0]) {
      var e := DigitsSplit(t[1..]);
      d := [t[0]] + e;
      assert t == [t[0]] + t[1..];
    } else {
      d := [];
    }
  }

  lemma SignRead(s: Bytes, t: Bytes)
    requires IsSignText(s) && (s == [] ==> t == [] || !IsSign(t[0]))
    ensures SkipSign(s + t) == t
  {
    if s == [] { assert s + t == t; } else { assert (s + t)[1..] == t; }
  }

  lemma SignSplit(t: Bytes) returns (s: Bytes)
    ensures IsSignText(s) && t == s + SkipSign(t)
  {
    s := if t != [] && IsSign(t[0]) then [t[0]] else [];
  }

  lemma ExponentStarts(x: Exponent, post: Bytes)
    requires IsExponent(x) && Delim(post)
    ensures var v := ExponentText(x) + post; v == [] || (!IsDigit(v[0]) && v[0] != 0x2E && !IsSign(v[0]))
  {
    var v := ExponentText(x) + post;
    if x.Exponent? { assert v[0] == x.e; } else { assert v == post; }
  }

  lemma ExponentRead(x: Exponent, post: Bytes)
    requires IsExponent(x) && Delim(post)
    ensures SkipExponent(ExponentText(x) + post) == post
  {
    if x.Exponent? {
      var rest := x.digits + post;
      assert rest == [] || !IsSign(rest[0]);
      SignRead(x.sign, rest);
      DigitsRead(x.digits, post);
      hide SkipSign, SkipDigits, Digits;
      Assoc([x.e], x.sign + x.digits, post);
      Assoc(x.sign, x.digits, post);
      var u := [x.e] + (x.sign + rest);
      assert u[0] == x.e && u[1..] == x.sign + rest;
    } else {
      assert ExponentText(x) + post == post;
    }
  }

  lemma ExponentSplit(t: Bytes) returns (x: Exponent)
    ensures IsExponent(x) && t == ExponentText(x) + SkipExponent(t)
  {
    hide SkipSign, SkipDigits;
    if t != [] && (t[0] == 0x65 || t[0] == 0x45) {
      var u := t[1..];
      var s := SignSplit(u);
      var d := DigitsSplit(SkipSign(u));
      x := Exponent.Exponent(t[0], s, d);
      var rest := SkipExponent(t);
      assert t == [t[0]] + u;
      Assoc([t[0]], s + d, rest);
      Assoc(s, d, rest);
    } else {
      x := NoExponent;
    }
  }

  lemma FractionRead(n: Numeral, v: Bytes)
    requires Digits(n.frac) && (n.frac != [] ==> n.point) && NoDigit(v) && (v == [] || v[0] != 0x2E)
    ensures SkipFraction(FractionText(n) + v) == (n.frac != [], v) && NoDigit(FractionText(n) + v)
  {
    if n.point {
      var u := FractionText(n) + v;
      assert u[1..] == n.frac + v;
      DigitsRead(n.frac, v);
    } else {
      assert FractionText(n) + v == v;
    }
  }

  /** The scanner reads a numeral to its end. */
  lemma NumeralRead(n: Numeral, post: Bytes)
    requires IsNumeral(n) && Delim(post)
    ensures ScanNumber(NumeralText(n) + post) == (true, post)
  {
    hide SkipDigits, SkipSign, SkipFraction, SkipExponent;
    var v := ExponentText(n.exp) + post;
    var u := FractionText(n) + v;
    var a := n.whole + u;
    ExponentRead(n.exp, post);
    ExponentStarts(n.exp, post);
    FractionRead(n, v);
    DigitsRead(n.whole, u);
    MantissaStarts(n, v);
    SignRead(n.sign, a);
    hide FractionText, ExponentText;
    Assoc(n.sign, n.whole + (FractionText(n) + ExponentText(n.exp)), post);
    Assoc(n.whole, FractionText(n) + ExponentText(n.exp), post);
    Assoc(FractionText(n), ExponentText(n.exp), post);
    assert |a| == |n.whole| + |u|;
  }

  lemma MantissaStarts(n: Numeral, v: Bytes)
    requires IsNumeral(n)
    ensures var a := n.whole + (FractionText(n) + v); a != [] && !IsSign(a[0])
  {
    var a := n.whole + (FractionText(n) + v);
    assert a[0] == if n.whole != [] then n.whole[0] else '.' as int;
  }

  /** Whatever the scanner takes for a number is a numeral. */
  lemma NumeralSplit(t: Bytes) returns (n: Numeral)
    requires ScanNumber(t).0
    ensures IsNumeral(n) && t == NumeralText(n) + ScanNumber(t).1
  {
    hide SkipDigits, SkipSign, SkipFraction, SkipExponent;
    var sign := SignSplit(t);
    var a := SkipSign(t);
    var whole := DigitsSplit(a);
    var b := SkipDigits(a);
    var point, frac := FractionSplit(b);
    var c := SkipFraction(b).1;
    var exp := ExponentSplit(c);
    n := Numeral(sign, whole, point, frac, exp);
    var f, x, rest := FractionText(n), ExponentText(exp), SkipExponent(c);
    assert b == f + c;
    assert |a| == |whole| + |b|;
    hide FractionText, ExponentText;
    Assoc(sign, whole + (f + x), rest);
    Assoc(whole, f + x, rest);
    Assoc(f, x, rest);
  }

  lemma FractionSplit(b: Bytes) returns (point: bool, frac: Bytes)
    ensures Digits(frac) && (frac != [] ==> point) && (SkipFraction(b).0 <==> frac != [])
    ensures b == (if point then ['.' as int] + frac else []) + SkipFraction(b).1
  {
    hide SkipDigits;
    point, frac := b != [] && b[0] == 0x2E, [];
    if point {
      var u := b[1..];
      frac := DigitsSplit(u);
      assert b == [b[0]] + u;
      Assoc([b[0]], frac, SkipDigits(u));
    }
  }

  /** A numeral starts with a sign, a digit or a point. */
  lemma NumeralStarts(n: Numeral)
    requires IsNumeral(n)
    ensures NumeralText(n) != [] && (IsSign(NumeralText(n)[0]) || IsDigit(NumeralText(n)[0]) || NumeralText(n)[0] == 0x2E)
  {
    var t := NumeralText(n);
    if n.sign != [] {
      assert t[0] == n.sign[0];
    } else if n.whole != [] {
      assert t[0] == n.whole[0];
    } else {
      assert t[0] == '.' as int;
    }
  }

  // ---- strings ----

  lemma HexDigitIs(c: Byte)
    ensures HexValue(c) >= 0 <==> IsHexDigit(c)
    ensures IsHexDigit(c) ==> HexValue(c) == HexDigitValue(c)
  {
  }

  lemma HexRead(h: Bytes, post: Bytes)
    requires IsPiece(Unit(h))
    ensures Hex4(h + post) == Ok(HexNumber(h), post)
  {
    var t := h + post;
    assert t[0] == h[0] && t[1] == h[1] && t[2] == h[2] && t[3] == h[3] && t[4..] == post;
    HexDigitIs(h[0]); HexDigitIs(h[1]); HexDigitIs(h[2]); HexDigitIs(h[3]);
    hide HexValue, HexDigitValue, IsHexDigit;
  }

  lemma HexSplit(t: Bytes)
    requires Hex4(t).Ok?
    ensures IsPiece(Unit(t[..4])) && t == t[..4] + t[4..] && Hex4(t) == Ok(HexNumber(t[..4]), t[4..])
  {
    HexDigitIs(t[0]); HexDigitIs(t[1]); HexDigitIs(t[2]); HexDigitIs(t[3]);
    hide HexValue, HexDigitValue, IsHexDigit;
    var h := t[..4];
    assert h[0] == t[0] && h[1] == t[1] && h[2] == t[2] && h[3] == t[3];
  }

  lemma ShortIs(l: Byte)
    ensures SimpleEscape(l) == ShortMeaning(l) && ShortMeaning('u' as int) < 0
  {
  }

  /** A unit that does not take the next one along. */
  lemma UnitRead(h: Bytes, r: Bytes, out: Bytes)
    requires IsPiece(Unit(h)) && !(IsHigh(HexNumber(h)) && StartsUnicodeEscape(r))
    ensures StringBody(PieceText(Unit(h)) + r, out) == StringBody(r, out + Utf8(HexNumber(h)))
  {
    hide Utf8, HexNumber, Hex4, IsHexDigit;
    var t := PieceText(Unit(h)) + r;
    assert t[1..][1..] == h + r && t[0] == BACKSLASH && t[1..][0] == LETTER_U;
    HexRead(h, r);
  }

  /** A high surrogate and the unit behind it. */
  lemma TwoRead(h: Bytes, k: Bytes, r: Bytes, out: Bytes)
    requires IsPiece(Unit(h)) && IsPiece(Unit(k)) && IsHigh(HexNumber(h))
    ensures StringBody(PieceText(Unit(h)) + (PieceText(Unit(k)) + r), out)
         == StringBody(r, out + TwoUnits(HexNumber(h), HexNumber(k)))
  {
    hide Utf8, HexNumber, Hex4, IsHexDigit;
    var next := PieceText(Unit(k)) + r;
    var t := PieceText(Unit(h)) + next;
    assert t[1..][1..] == h + next && t[0] == BACKSLASH && t[1..][0] == LETTER_U;
    assert next[2..] == k + r && StartsUnicodeEscape(next);
    HexRead(h, next);
    HexRead(k, r);
  }

  lemma ShortRead(l: Byte, r: Bytes, out: Bytes)
    requires IsPiece(Short(l))
    ensures StringBody(PieceText(Short(l)) + r, out) == StringBody(r, out + [ShortMeaning(l)])
  {
    ShortIs(l);
    var t := PieceText(Short(l)) + r;
    assert t[1..][1..] == r && t[0] == BACKSLASH && t[1..][0] == l;
  }

  lemma PiecesFront(ps: Text, tail: Bytes)
    requires ps != []
    ensures PiecesText(ps) + tail == PieceText(ps[0]) + (PiecesText(ps[1..]) + tail)
  {
    Assoc(PieceText(ps[0]), PiecesText(ps[1..]), tail);
  }

  /** The text of pieces and a closing quote starts like a unit only if the first piece is one. */
  lemma StartsLike(ps: Text, post: Bytes)
    ensures StartsUnicodeEscape(PiecesText(ps) + ([QUOTE] + post)) <==> ps != [] && ps[0].Unit?
  {
    var t := PiecesText(ps) + ([QUOTE] + post);
    if ps != [] {
      hide PiecesText;
      var more := PiecesText(ps[1..]) + ([QUOTE] + post);
      PiecesFront(ps, [QUOTE] + post);
      var front := PieceText(ps[0]) + more;
      match ps[0]
      case Plain(c) => assert front[0] == c;
      case Short(l) =>
        ShortIs(l);
        assert front[0] == BACKSLASH && front[1] == l;
      case Unit(h) => assert front[0] == BACKSLASH && front[1] == LETTER_U;
    }
  }

  /** The scanner reads every spelling of a string. */
  lemma {:induction false} PiecesRead(ps: Text, post: Bytes, out: Bytes)
    ensures StringBody(PiecesText(ps) + ([QUOTE] + post), out) == Ok(out + Said(ps), post)
    decreases |ps|
  {
    var tail := [QUOTE] + post;
    if ps == [] {
      assert PiecesText(ps) + tail == tail && tail[1..] == post && out + [] == out;
    } else {
      var more := PiecesText(ps[1..]) + tail;
      PiecesFront(ps, tail);
      StartsLike(ps[1..], post);
      PieceRead(ps, post, out, more);
    }
  }

  lemma {:induction false} PieceRead(ps: Text, post: Bytes, out: Bytes, more: Bytes)
    requires ps != [] && more == PiecesText(ps[1..]) + ([QUOTE] + post)
    requires StartsUnicodeEscape(more) <==> |ps| >= 2 && ps[1].Unit?
    ensures StringBody(PieceText(ps[0]) + more, out) == Ok(out + Said(ps), post)
    decreases |ps|, 0
  {
    hide StringBody, Utf8, HexNumber, TwoUnits, StartsUnicodeEscape, PieceText, PiecesText;
    match ps[0]
    case Plain(c) =>
      PlainRead(c, more, out);
      PiecesRead(ps[1..], post, out + [c]);
      Assoc(out, [c], Said(ps[1..]));
    case Short(l) =>
      ShortRead(l, more, out);
      PiecesRead(ps[1..], post, out + [ShortMeaning(l)]);
      Assoc(out, [ShortMeaning(l)], Said(ps[1..]));
    case Unit(h) =>
      if IsHigh(HexNumber(h)) && |ps| >= 2 && ps[1].Unit? {
        var k := ps[1].digits;
        var two := TwoUnits(HexNumber(h), HexNumber(k));
        assert ps[1..][1..] == ps[2..];
        PiecesFront(ps[1..], [QUOTE] + post);
        TwoRead(h, k, PiecesText(ps[2..]) + ([QUOTE] + post), out);
        PiecesRead(ps[2..], post, out + two);
        Assoc(out, two, Said(ps[2..]));
      } else {
        UnitRead(h, more, out);
        PiecesRead(ps[1..], post, out + Utf8(HexNumber(h)));
        Assoc(out, Utf8(HexNumber(h)), Said(ps[1..]));
      }
  }

  lemma PlainRead(c: Byte, r: Bytes, out: Bytes)
    requires IsPiece(Plain(c))
    ensures StringBody(PieceText(Plain(c)) + r, out) == StringBody(r, out + [c])
  {
    var t := PieceText(Plain(c)) + r;
    assert t[1..] == r;
  }

  /** Whatever the scanner takes for the rest of a string is a spelling of what it returns. */
  lemma {:induction false} StringSplit(t: Bytes, out: Bytes) returns (ps: Text)
    requires StringBody(t, out).Ok?
    ensures var r := StringBody(t, out);
            t == PiecesText(ps) + ([QUOTE] + r.rest) && r.value == out + Said(ps)
    decreases |t|, 2
  {
    if t[0] == QUOTE {
      ps := [];
      assert t == [] + ([QUOTE] + t[1..]) && out + [] == out;
    } else if t[0] != BACKSLASH {
      var more := StringSplit(t[1..], out + [t[0]]);
      ps := [Plain(t[0])] + more;
      assert t == [t[0]] + t[1..];
      Prefixed(Plain(t[0]), more, [QUOTE] + StringBody(t, out).rest);
      Assoc(out, [t[0]], Said(more));
      assert ps[1..] == more;
    } else {
      ps := EscapeSplit(t, out);
    }
  }

  lemma Prefixed(p: Piece, more: Text, tail: Bytes)
    requires IsPiece(p)
    ensures ArePieces([p] + more) && PiecesText([p] + more) + tail == PieceText(p) + (PiecesText(more) + tail)
  {
    var ps := [p] + more;
    assert ps[1..] == more;
    PiecesFront(ps, tail);
  }

  lemma {:induction false} EscapeSplit(t: Bytes, out: Bytes) returns (ps: Text)
    requires StringBody(t, out).Ok? && t[0] == BACKSLASH
    ensures var r := StringBody(t, out);
            t == PiecesText(ps) + ([QUOTE] + r.rest) && r.value == out + Said(ps)
    decreases |t|, 1
  {
    var u, rest := t[1..], StringBody(t, out).rest;
    assert u != [];
    if u[0] == LETTER_U {
      ps := UnitSplit(t, out);
    } else {
      ShortIs(u[0]);
      var more := StringSplit(u[1..], out + [ShortMeaning(u[0])]);
      ps := [Short(u[0])] + more;
      assert t == [BACKSLASH, u[0]] + u[1..];
      Prefixed(Short(u[0]), more, [QUOTE] + rest);
      Assoc(out, [ShortMeaning(u[0])], Said(more));
      assert ps[1..] == more;
    }
  }

  /** A unit escape at the front of an accepted text, and the text behind it. */
  lemma UnitFront(t: Bytes)
    requires |t| >= 2 && t[0] == BACKSLASH && t[1] == LETTER_U && Hex4(t[2..]).Ok?
    ensures IsPiece(Unit(t[2..6])) && t == PieceText(Unit(t[2..6])) + t[6..]
    ensures Hex4(t[2..]) == Ok(HexNumber(t[2..6]), t[6..])
  {
    HexSplit(t[2..]);
    hide IsHexDigit, HexNumber, Hex4;
    assert t[2..][..4] == t[2..6] && t[2..][4..] == t[6..];
  }

  lemma {:induction false} UnitSplit(t: Bytes, out: Bytes) returns (ps: Text)
    requires StringBody(t, out).Ok? && |t| >= 2 && t[0] == BACKSLASH && t[1] == LETTER_U
    ensures var r := StringBody(t, out);
            t == PiecesText(ps) + ([QUOTE] + r.rest) && r.value == out + Said(ps)
    decreases |t|, 0
  {
    assert t[1..][1..] == t[2..];
    UnitFront(t);
    var h, r := t[2..6], t[6..];
    hide Utf8, HexNumber, Hex4, IsHexDigit, PieceText, PiecesText, Said;
    if IsHigh(HexNumber(h)) && StartsUnicodeEscape(r) {
      UnitFront(r);
      var k, r' := r[2..6], r[6..];
      hide StringBody;
      TwoRead(h, k, r', out);
      var more := StringSplit(r', out + TwoUnits(HexNumber(h), HexNumber(k)));
      ps := PairBefore(h, k, more, out, [QUOTE] + StringBody(t, out).rest);
    } else {
      hide StringBody;
      UnitRead(h, r, out);
      var more := StringSplit(r, out + Utf8(HexNumber(h)));
      StartsLike(more, StringBody(t, out).rest);
      ps := UnitBefore(h, more, out, [QUOTE] + StringBody(t, out).rest);
    }
  }

  lemma PairBefore(h: Bytes, k: Bytes, more: Text, out: Bytes, tail: Bytes) returns (ps: Text)
    requires IsPiece(Unit(h)) && IsPiece(Unit(k)) && IsHigh(HexNumber(h))
    ensures PiecesText(ps) + tail == PieceText(Unit(h)) + (PieceText(Unit(k)) + (PiecesText(more) + tail))
    ensures out + Said(ps) == (out + TwoUnits(HexNumber(h), HexNumber(k))) + Said(more)
  {
    hide HexNumber, IsHexDigit, PieceText, PiecesText, TwoUnits;
    Prefixed(Unit(k), more, tail);
    Prefixed(Unit(h), [Unit(k)] + more, tail);
    ps := [Unit(h)] + ([Unit(k)] + more);
    assert ps[2..] == more && ps[1] == Unit(k) && ps[0] == Unit(h);
    Assoc(out, TwoUnits(HexNumber(h), HexNumber(k)), Said(more));
  }

  lemma UnitBefore(h: Bytes, more: Text, out: Bytes, tail: Bytes) returns (ps: Text)
    requires IsPiece(Unit(h)) && !(IsHigh(HexNumber(h)) && more != [] && more[0].Unit?)
    ensures PiecesText(ps) + tail == PieceText(Unit(h)) + (PiecesText(more) + tail)
    ensures out + Said(ps) == (out + Utf8(HexNumber(h))) + Said(more)
  {
    hide HexNumber, IsHexDigit, PieceText, PiecesText, Utf8;
    Prefixed(Unit(h), more, tail);
    ps := [Unit(h)] + more;
    assert ps[1..] == more && ps[0] == Unit(h);
    Assoc(out, Utf8(HexNumber(h)), Said(more));
  }
}

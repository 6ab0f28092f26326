/**
 The recursive-descent parser of core/json.cpp as an object with a cursor and a nesting depth.
 Every method reads exactly what the language of `JsonText` says, never past the end, and moves
 the cursor forward.
 */
module JsonParser {
  import opened JsonText

  datatype Result<T> = Success(value: T) | Failure(what: Fault, at: nat)

  class Parser {
    const s: Bytes
    var i: nat
    var depth: nat

    constructor (text: Bytes)
      ensures s == text && i == 0 && depth == 0
    {
      s, i, depth := text, 0, 0;
    }

    ghost predicate Valid()
      reads this
    {
      i <= |s|
    }

    /** The outcome of a method that started at byte i0 and depth d0 is the language's: same value
        and unread text, or same fault at the same byte. */
    ghost predicate Agrees<T>(r: Result<T>, p: Parsed<T>, i0: nat, d0: nat)
      reads this
    {
      match p
      case Ok(v, rest) => r == Success(v) && Valid() && s[i..] == rest && depth == d0 && i0 < i
      case Err(what, left) => left <= |s| && r == Failure(what, |s| - left)
    }

    method Skip()
      requires Valid()
      modifies this`i
      ensures Valid() && old(i) <= i && s[i..] == SkipWs(s[old(i)..])
    {
      while i < |s| && IsWs(s[i])
        invariant old(i) <= i <= |s|
        invariant SkipWs(s[old(i)..]) == SkipWs(s[i..])
      {
        assert s[i..][1..] == s[i + 1..];
        i := i + 1;
      }
    }

    method ReadHex4() returns (r: Result<nat>)
      requires Valid()
      modifies this`i
      ensures Agrees(r, old(Hex4(s[i..])), old(i), old(depth))
    {
      if i + 4 > |s| { return Failure(TruncatedHex, i); }
      var v, k := 0, 0;
      ghost var t := s[i..];
      while k < 4
        invariant 0 <= k <= 4 && i == old(i) && t == s[i..]
        invariant k > 0 ==> HexValue(t[0]) >= 0
        invariant k > 1 ==> HexValue(t[1]) >= 0
        invariant k > 2 ==> HexValue(t[2]) >= 0
        invariant k > 3 ==> HexValue(t[3]) >= 0
        invariant v == (if k == 0 then 0 else if k == 1 then HexValue(t[0])
                        else if k == 2 then HexValue(t[0]) * 16 + HexValue(t[1])
                        else if k == 3 then (HexValue(t[0]) * 16 + HexValue(t[1])) * 16 + HexValue(t[2])
                        else ((HexValue(t[0]) * 16 + HexValue(t[1])) * 16 + HexValue(t[2])) * 16 + HexValue(t[3]))
      {
        var d := HexValue(s[i + k]);
        if d < 0 { return Failure(BadHex, i); }
        v := v * 16 + d;
        k := k + 1;
      }
      i := i + 4;
      assert t[4..] == s[i..];
      return Success(v);
    }

    /** The escape behind \u, cursor on its first digit. */
    method ReadUnicode() returns (r: Result<Bytes>)
      requires Valid()
      modifies this`i
      ensures Agrees(r, old(UnicodeEscape(s[i..])), old(i), old(depth))
    {
      var hi := ReadHex4();
      if hi.Failure? { return Failure(hi.what, hi.at); }
      if IsHigh(hi.value) && i + 1 < |s| && s[i] == BACKSLASH && s[i + 1] == LETTER_U {
        assert s[i..][2..] == s[i + 2..];
        i := i + 2;
        var lo := ReadHex4();
        if lo.Failure? { return Failure(lo.what, lo.at); }
        if IsLow(lo.value) { return Success(Utf8(Pair(hi.value, lo.value))); }
        return Success(Utf8(hi.value) + Utf8(lo.value));
      }
      return Success(Utf8(hi.value));
    }

    /** An escape, cursor behind its backslash. */
    method ReadEscape() returns (r: Result<Bytes>)
      requires Valid()
      modifies this`i
      ensures Agrees(r, old(Escape(s[i..])), old(i), old(depth))
    {
      hide UnicodeEscape;
      if i == |s| { return Failure(UnterminatedEscape, i); }
      var e := s[i];
      assert s[i..][1..] == s[i + 1..];
      i := i + 1;
      if e == LETTER_U {
        r := ReadUnicode();
      } else {
        var x := SimpleEscape(e);
        if x < 0 { return Failure(UnknownEscape, i); }
        r := Success([x]);
      }
    }

    /** A string literal, cursor on its opening quote. */
    method StringLiteral() returns (r: Result<Bytes>)
      requires Valid() && i < |s|
      modifies this`i
      ensures Agrees(r, old(StringBody(s[i + 1..], [])), old(i), old(depth))
    {
      hide Escape;
      ghost var all := StringBody(s[i + 1..], []);
      i := i + 1;
      var out: Bytes := [];
      while true
        invariant old(i) < i <= |s| && all == StringBody(s[i..], out)
        decreases |s| - i
      {
        if i == |s| { return Failure(UnterminatedString, i); }
        var c := s[i];
        assert s[i..][1..] == s[i + 1..];
        i := i + 1;
        if c == QUOTE { return Success(out); }
        if c != BACKSLASH {
          if c < 0x20 { return Failure(RawControl, i); }
          out := out + [c];
        } else {
          var bytes := ReadEscape();
          if bytes.Failure? { return Failure(bytes.what, bytes.at); }
          out := out + bytes.value;
        }
      }
    }

    method Digits() returns (any: bool)
      requires Valid()
      modifies this`i
      ensures Valid() && old(i) <= i && s[i..] == SkipDigits(s[old(i)..]) && any == (old(i) < i)
    {
      any := false;
      while i < |s| && IsDigit(s[i])
        invariant old(i) <= i <= |s| && any == (old(i) < i)
        invariant SkipDigits(s[old(i)..]) == SkipDigits(s[i..])
      {
        assert s[i..][1..] == s[i + 1..];
        i := i + 1;
        any := true;
      }
    }

    method Sign()
      requires Valid()
      modifies this`i
      ensures Valid() && old(i) <= i && s[i..] == SkipSign(s[old(i)..])
    {
      if i < |s| && IsSign(s[i]) {
        assert s[i..][1..] == s[i + 1..];
        i := i + 1;
      }
    }

    method Fraction() returns (any: bool)
      requires Valid()
      modifies this`i
      ensures Valid() && old(i) <= i && (any, s[i..]) == SkipFraction(s[old(i)..])
    {
      any := false;
      if i < |s| && s[i] == 0x2E {
        assert s[i..][1..] == s[i + 1..];
        i := i + 1;
        any := Digits();
      }
    }

    method ExponentPart()
      requires Valid()
      modifies this`i
      ensures Valid() && old(i) <= i && s[i..] == SkipExponent(s[old(i)..])
    {
      if i < |s| && (s[i] == 0x65 || s[i] == 0x45) {
        assert s[i..][1..] == s[i + 1..];
        i := i + 1;
        Sign();
        var _ := Digits();
      }
    }

    method NumberLiteral() returns (r: Result<Json>)
      requires Valid()
      modifies this`i
      ensures Agrees(r, old(ParseNumber(s[i..])), old(i), old(depth))
    {
      hide SkipDigits, SkipSign, SkipFraction, SkipExponent;
      var start := i;
      Sign();
      var any := Digits();
      var more := Fraction();
      any := any || more;
      ExponentPart();
      assert ScanNumber(s[start..]) == (any, s[i..]);
      if !any { return Failure(NoValue, i); }
      DigitsConsume(s[start..]);
      assert s[start..][..i - start] == s[start..i];
      return Success(Number(s[start..i]));
    }

    method LiteralWord(word: Bytes, v: Json) returns (r: Result<Json>)
      requires Valid() && word != []
      modifies this`i
      ensures Agrees(r, old(Literal(s[i..], word, v)), old(i), old(depth))
    {
      if word <= s[i..] {
        assert s[i..][|word|..] == s[i + |word|..];
        i := i + |word|;
        return Success(v);
      }
      return Failure(BadLiteral, i);
    }

    /** A member's key and the colon behind it. */
    method Key() returns (r: Result<Bytes>)
      requires Valid()
      modifies this`i
      ensures Agrees(r, old(ParseKey(s[i..])), old(i), old(depth))
    {
      Skip();
      if i == |s| || s[i] != QUOTE { return Failure(ExpectedKey, i); }
      assert s[i..][1..] == s[i + 1..];
      r := StringLiteral();
      if r.Failure? { return; }
      Skip();
      if i == |s| || s[i] != COLON { return Failure(ExpectedColon, i); }
      assert s[i..][1..] == s[i + 1..];
      i := i + 1;
    }

    method Value() returns (r: Result<Json>)
      requires Valid()
      modifies this
      ensures Agrees(r, old(ParseValue(s[i..], depth)), old(i), old(depth))
      decreases |s| - i, 1
    {
      hide ParseArray, ParseObject, StringBody, ParseNumber, Literal;
      if depth >= MAX_DEPTH { return Failure(TooDeep, i); }
      Skip();
      if i == |s| { return Failure(EndOfInput, i); }
      var c := s[i];
      if c == LBRACE { r := Object(); }
      else if c == LBRACKET { r := Array(); }
      else if c == QUOTE {
        assert s[i..][1..] == s[i + 1..];
        var str := StringLiteral();
        if str.Failure? { return Failure(str.what, str.at); }
        r := Success(Str(str.value));
      }
      else if c == 0x74 { r := LiteralWord(TRUE, Bool(true)); }
      else if c == 0x66 { r := LiteralWord(FALSE, Bool(false)); }
      else if c == 0x6E { r := LiteralWord(NULL, Null); }
      else { r := NumberLiteral(); }
    }

    method Array() returns (r: Result<Json>)
      requires Valid() && i < |s|
      modifies this
      ensures Agrees(r, old(ParseArray(s[i..], depth)), old(i), old(depth))
      decreases |s| - i, 0
    {
      hide ParseValue, ParseKey, SkipWs;
      ghost var all := ParseArray(s[i..], depth);
      assert s[i..][1..] == s[i + 1..];
      i := i + 1;
      depth := depth + 1;
      var a: seq<Json> := [];
      Skip();
      if i < |s| && s[i] == RBRACKET {
        assert s[i..][1..] == s[i + 1..];
        i := i + 1;
        depth := depth - 1;
        return Success(Arr(a));
      }
      while true
        invariant old(i) < i <= |s| && depth == old(depth) + 1
        invariant all == ParseItems(s[i..], depth, a)
        decreases |s| - i
      {
        var v := Value();
        if v.Failure? { return Failure(v.what, v.at); }
        a := a + [v.value];
        Skip();
        if i == |s| { return Failure(UnterminatedArray, i); }
        assert s[i..][1..] == s[i + 1..];
        if s[i] == COMMA { i := i + 1; continue; }
        if s[i] == RBRACKET {
          i := i + 1;
          depth := depth - 1;
          return Success(Arr(a));
        }
        return Failure(ExpectedCommaOrBracket, i);
      }
    }

    method Member() returns (r: Result<(Bytes, Json)>)
      requires Valid()
      modifies this
      ensures Agrees(r, old(ParseMember(s[i..], depth)), old(i), old(depth))
      decreases |s| - i, 2
    {
      hide ParseValue, ParseKey;
      var key := Key();
      if key.Failure? { return Failure(key.what, key.at); }
      var v := Value();
      if v.Failure? { return Failure(v.what, v.at); }
      return Success((key.value, v.value));
    }

    method Object() returns (r: Result<Json>)
      requires Valid() && i < |s|
      modifies this
      ensures Agrees(r, old(ParseObject(s[i..], depth)), old(i), old(depth))
      decreases |s| - i, 0
    {
      hide ParseMember, SkipWs;
      ghost var all := ParseObject(s[i..], depth);
      assert s[i..][1..] == s[i + 1..];
      i := i + 1;
      depth := depth + 1;
      var o: map<Bytes, Json> := map[];
      Skip();
      if i < |s| && s[i] == RBRACE {
        assert s[i..][1..] == s[i + 1..];
        i := i + 1;
        depth := depth - 1;
        return Success(Obj(o));
      }
      while true
        invariant old(i) < i <= |s| && depth == old(depth) + 1
        invariant all == ParseMembers(s[i..], depth, o)
        decreases |s| - i
      {
        var m := Member();
        if m.Failure? { return Failure(m.what, m.at); }
        o := o[m.value.0 := m.value.1];
        Skip();
        if i == |s| { return Failure(UnterminatedObject, i); }
        assert s[i..][1..] == s[i + 1..];
        if s[i] == COMMA { i := i + 1; continue; }
        if s[i] == RBRACE {
          i := i + 1;
          depth := depth - 1;
          return Success(Obj(o));
        }
        return Failure(ExpectedCommaOrBrace, i);
      }
    }
  }

  /** A whole document. The byte of a fault counts from behind the byte-order mark. */
  method ParseText(text: Bytes) returns (r: Result<Json>)
    ensures match ParseDocument(text)
            case Ok(v, _) => r == Success(v)
            case Err(what, left) =>
              var n := if BOM <= text then |text| - 3 else |text|;
              left <= n && r == Failure(what, n - left)
  {
    hide ParseValue;
    var t := if BOM <= text then text[3..] else text;
    var p := new Parser(t);
    assert t[0..] == t;
    r := p.Value();
    if r.Failure? { return; }
    p.Skip();
    if p.i != |t| { return Failure(Trailing, p.i); }
  }
}

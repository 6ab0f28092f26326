/**
 The writer of core/json_write.h, and the proof that the parser undoes it.
 */
module JsonRoundTrip {
  import opened JsonText

  // ---- the writer ----

  function HexDigit(d: nat): Byte
    requires d < 16
  {
    if d < 10 then 0x30 + d else 0x61 + d - 10
  }

  /** \uXXXX with four lower-case digits. */
  function UnitEscape(u: nat): (r: Bytes)
    requires u < 0x1_0000
    ensures |r| == 6
  {
    [BACKSLASH, LETTER_U] + HexDigits(u)
  }

  function HexDigits(u: nat): (r: Bytes)
    requires u < 0x1_0000
    ensures |r| == 4
  {
    [HexDigit(u / 0x1000), HexDigit(u / 0x100 % 16), HexDigit(u / 16 % 16), HexDigit(u % 16)]
  }

  /** What one byte of a string becomes. */
  function EscapedByte(c: Byte): (r: Bytes)
    ensures r != []
  {
    if c == QUOTE then [BACKSLASH, QUOTE]
    else if c == BACKSLASH then [BACKSLASH, BACKSLASH]
    else if c == 0x0A then [BACKSLASH, 0x6E]
    else if c == 0x0D then [BACKSLASH, 0x72]
    else if c == 0x09 then [BACKSLASH, 0x74]
    else if c == 0x08 then [BACKSLASH, 0x62]
    else if c == 0x0C then [BACKSLASH, 0x66]
    else if c < 0x20 then UnitEscape(c)
    else [c]
  }

  function Escaped(s: Bytes): Bytes {
    if s == [] then [] else Escaped(s[..|s|-1]) + EscapedByte(s[|s|-1])
  }

  function Quoted(s: Bytes): Bytes {
    [QUOTE] + Escaped(s) + [QUOTE]
  }

  /** `json_quote`. */
  method JsonQuote(s: Bytes) returns (out: Bytes)
    ensures out == Quoted(s)
  {
    out := [QUOTE];
    for i := 0 to |s|
      invariant out == [QUOTE] + Escaped(s[..i])
    {
      assert s[..i+1][..i] == s[..i];
      out := out + EscapedByte(s[i]);
    }
    assert s[..|s|] == s;
    out := out + [QUOTE];
  }

  // ---- strings come back ----

  lemma HexBack(d: nat)
    requires d < 16
    ensures HexValue(HexDigit(d)) == d
  {
  }

  lemma Nibbles(u: nat)
    requires u < 0x1_0000
    ensures ((u / 0x1000 * 16 + u / 0x100 % 16) * 16 + u / 16 % 16) * 16 + u % 16 == u
  {
  }

  lemma Hex4Back(u: nat, post: Bytes)
    requires u < 0x1_0000
    ensures Hex4(HexDigits(u) + post) == Ok(u, post)
  {
    hide HexValue, HexDigit;
    Nibbles(u);
    HexBack(u / 0x1000); HexBack(u / 0x100 % 16); HexBack(u / 16 % 16); HexBack(u % 16);
    var t := HexDigits(u) + post;
    assert t[4..] == post;
  }

  /** One written byte is read back as itself. */
  lemma ByteBack(c: Byte, post: Bytes, out: Bytes)
    ensures StringBody(EscapedByte(c) + post, out) == StringBody(post, out + [c])
  {
    var t := EscapedByte(c) + post;
    assert t[0] == EscapedByte(c)[0];
    if t[0] == BACKSLASH {
      assert t[1..] == EscapedByte(c)[1..] + post;
      EscapeBack(c, post);
    } else {
      assert t[1..] == post;
    }
  }

  lemma EscapeBack(c: Byte, post: Bytes)
    requires EscapedByte(c)[0] == BACKSLASH
    ensures Escape(EscapedByte(c)[1..] + post) == Ok([c], post)
  {
    var t := EscapedByte(c)[1..] + post;
    if t[0] == LETTER_U {
      assert t[1..] == HexDigits(c) + post;
      Hex4Back(c, post);
    } else {
      assert t[1..] == post;
    }
  }

  lemma EscapedSnoc(s: Bytes, post: Bytes)
    requires s != []
    ensures Escaped(s) + post == Escaped(s[..|s|-1]) + (EscapedByte(s[|s|-1]) + post)
  {
    hide EscapedByte;
  }

  lemma {:induction false} StringBack(s: Bytes, post: Bytes, out: Bytes)
    ensures StringBody(Escaped(s) + post, out) == StringBody(post, out + s)
  {
    hide StringBody, EscapedByte;
    if s == [] {
      assert Escaped(s) + post == post && out + s == out;
    } else {
      EscapedSnoc(s, post);
      var n := |s| - 1;
      var mid := EscapedByte(s[n]) + post;
      assert (out + s[..n]) + [s[n]] == out + s;
      hide Escaped;
      StringBack(s[..n], mid, out);
      ByteBack(s[n], post, out + s[..n]);
    }
  }

  lemma QuotedBack(s: Bytes, post: Bytes)
    ensures StringBody((Quoted(s) + post)[1..], []) == Ok(s, post)
  {
    var tail := [QUOTE] + post;
    assert (Quoted(s) + post)[1..] == Escaped(s) + tail;
    StringBack(s, tail, []);
    assert [] + s == s && tail[1..] == post;
  }
}

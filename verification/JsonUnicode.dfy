/**
 Unicode escapes of core/json.cpp: against UTF-8 (section 3 of RFC 3629) and against the pairing
 of surrogates (section 7 of RFC 8259).
 */
module JsonUnicode {
  import opened Wrappers
  import opened JsonText
  import opened JsonRoundTrip

  /** A Unicode scalar value: a code point that is not a surrogate. */
  ghost predicate Scalar(cp: nat) { cp < 0x11_0000 && !IsHigh(cp) && !IsLow(cp) }

  // ---- UTF-8, read strictly ----

  /** The bits a byte adds to its marker. */
  function Bits(b: Byte, marker: int): int { b - marker }

  predicate IsTail(b: Byte) { 0x80 <= b <= 0xBF }

  /** The code point at the front of t and its length: shortest form only, no surrogates. */
  function Utf8Decode(t: Bytes): Option<(int, int)> {
    if |t| >= 1 && t[0] < 0x80 then Some((t[0], 1))
    else if |t| >= 2 && 0xC2 <= t[0] <= 0xDF && IsTail(t[1]) then
      Some((Bits(t[0], 0xC0) * 0x40 + Bits(t[1], 0x80), 2))
    else if |t| >= 3 && 0xE0 <= t[0] <= 0xEF && IsTail(t[1]) && IsTail(t[2]) then
      var cp := Bits(t[0], 0xE0) * 0x1000 + Bits(t[1], 0x80) * 0x40 + Bits(t[2], 0x80);
      if cp < 0x800 || IsHigh(cp) || IsLow(cp) then None else Some((cp, 3))
    else if |t| >= 4 && 0xF0 <= t[0] <= 0xF4 && IsTail(t[1]) && IsTail(t[2]) && IsTail(t[3]) then
      var cp := Bits(t[0], 0xF0) * 0x4_0000 + Bits(t[1], 0x80) * 0x1000 + Bits(t[2], 0x80) * 0x40 + Bits(t[3], 0x80);
      if cp < 0x1_0000 || cp >= 0x11_0000 then None else Some((cp, 4))
    else None
  }

  /** Exactly the scalar values are encoded as valid UTF-8, and they decode to themselves. */
  lemma Utf8Back(cp: nat, post: Bytes)
    requires cp < 0x11_0000
    ensures Utf8Decode(Utf8(cp) + post) == if Scalar(cp) then Some((cp, |Utf8(cp)|)) else None
  {
    var t := Utf8(cp) + post;
    if cp < 0x80 {
      assert t[0] == cp;
    } else if cp < 0x800 {
      assert t[0] == Utf8(cp)[0] && t[1] == Utf8(cp)[1];
    } else if cp < 0x1_0000 {
      assert t[0] == Utf8(cp)[0] && t[1] == Utf8(cp)[1] && t[2] == Utf8(cp)[2];
      Split3(cp);
    } else {
      assert t[0] == Utf8(cp)[0] && t[1] == Utf8(cp)[1] && t[2] == Utf8(cp)[2] && t[3] == Utf8(cp)[3];
      Split4(cp);
    }
  }

  lemma Split3(cp: nat)
    ensures cp / 0x1000 * 0x1000 + cp / 0x40 % 0x40 * 0x40 + cp % 0x40 == cp
  {
    var a := cp / 0x40;
    assert a / 0x40 == cp / 0x1000;
  }

  lemma Split4(cp: nat)
    ensures cp / 0x4_0000 * 0x4_0000 + cp / 0x1000 % 0x40 * 0x1000 + cp / 0x40 % 0x40 * 0x40 + cp % 0x40 == cp
  {
    var a := cp / 0x40;
    Split3(a);
    assert a / 0x40 == cp / 0x1000;
    assert a / 0x1000 == cp / 0x4_0000;
  }

  // ---- escapes of scalar values ----

  /** The UTF-16 units of a scalar value. */
  function Units(cp: nat): (us: seq<nat>)
    requires cp < 0x11_0000
    ensures forall i :: 0 <= i < |us| ==> us[i] < 0x1_0000
  {
    if cp < 0x1_0000 then [cp]
    else [0xD800 + (cp - 0x1_0000) / 0x400, 0xDC00 + (cp - 0x1_0000) % 0x400]
  }

  /** A run of \u escapes. */
  function Escapes(us: seq<nat>): Bytes
    requires forall i :: 0 <= i < |us| ==> us[i] < 0x1_0000
  {
    if us == [] then [] else UnitEscape(us[0]) + Escapes(us[1..])
  }

  // ---- what a run of escapes means ----

  /** The code: a high surrogate always takes the next escape with it. */
  function Taken(us: seq<nat>): Bytes
    requires forall i :: 0 <= i < |us| ==> us[i] < 0x1_0000
  {
    if us == [] then []
    else if IsHigh(us[0]) && |us| >= 2 then
      (if IsLow(us[1]) then Utf8(Pair(us[0], us[1])) else Utf8(us[0]) + Utf8(us[1])) + Taken(us[2..])
    else Utf8(us[0]) + Taken(us[1..])
  }

  /** The standard: a high surrogate pairs with a low one right behind it, anything else stands alone. */
  function Standard(us: seq<nat>): Bytes
    requires forall i :: 0 <= i < |us| ==> us[i] < 0x1_0000
  {
    if us == [] then []
    else if IsHigh(us[0]) && |us| >= 2 && IsLow(us[1]) then Utf8(Pair(us[0], us[1])) + Standard(us[2..])
    else Utf8(us[0]) + Standard(us[1..])
  }

  lemma UnitBack(u: nat, post: Bytes, out: Bytes)
    requires u < 0x1_0000 && (!IsHigh(u) || !StartsUnicodeEscape(post))
    ensures StringBody(UnitEscape(u) + post, out) == StringBody(post, out + Utf8(u))
  {
    hide Utf8;
    var t := UnitEscape(u) + post;
    assert t[1..][1..] == HexDigits(u) + post;
    Hex4Back(u, post);
  }

  lemma TwoBack(u: nat, v: nat, post: Bytes, out: Bytes)
    requires u < 0x1_0000 && v < 0x1_0000 && IsHigh(u)
    ensures StringBody(UnitEscape(u) + (UnitEscape(v) + post), out)
         == StringBody(post, out + (if IsLow(v) then Utf8(Pair(u, v)) else Utf8(u) + Utf8(v)))
  {
    hide Utf8;
    var rest := UnitEscape(v) + post;
    var t := UnitEscape(u) + rest;
    assert t[1..][1..] == HexDigits(u) + rest;
    assert rest[2..] == HexDigits(v) + post;
    Hex4Back(u, rest);
    Hex4Back(v, post);
  }

  /** A run of escapes that is not followed by another one is read as `Taken` says. */
  lemma {:induction false} EscapesBack(us: seq<nat>, post: Bytes, out: Bytes)
    requires (forall i :: 0 <= i < |us| ==> us[i] < 0x1_0000) && !StartsUnicodeEscape(post)
    ensures StringBody(Escapes(us) + post, out) == StringBody(post, out + Taken(us))
  {
    hide StringBody, UnitEscape, Utf8;
    if us == [] {
      assert Escapes(us) + post == post && out + Taken(us) == out;
    } else if IsHigh(us[0]) && |us| >= 2 {
      var two := if IsLow(us[1]) then Utf8(Pair(us[0], us[1])) else Utf8(us[0]) + Utf8(us[1]);
      assert us[1..][1..] == us[2..];
      assert Escapes(us) + post == UnitEscape(us[0]) + (UnitEscape(us[1]) + (Escapes(us[2..]) + post));
      TwoBack(us[0], us[1], Escapes(us[2..]) + post, out);
      EscapesBack(us[2..], post, out + two);
      assert out + two + Taken(us[2..]) == out + Taken(us);
    } else {
      assert Escapes(us) + post == UnitEscape(us[0]) + (Escapes(us[1..]) + post);
      LoneBack(us, post, out);
      EscapesBack(us[1..], post, out + Utf8(us[0]));
      assert out + Utf8(us[0]) + Taken(us[1..]) == out + Taken(us);
    }
  }

  lemma LoneBack(us: seq<nat>, post: Bytes, out: Bytes)
    requires (forall i :: 0 <= i < |us| ==> us[i] < 0x1_0000) && !StartsUnicodeEscape(post)
    requires us != [] && (!IsHigh(us[0]) || |us| == 1)
    ensures StringBody(UnitEscape(us[0]) + (Escapes(us[1..]) + post), out)
         == StringBody(Escapes(us[1..]) + post, out + Utf8(us[0]))
  {
    if |us| == 1 { assert Escapes(us[1..]) + post == post; }
    UnitBack(us[0], Escapes(us[1..]) + post, out);
  }

  /** The escape of any scalar value, one unit or two, is read as bytes that UTF-8 decodes to it. */
  lemma ScalarBack(cp: nat, post: Bytes, out: Bytes)
    requires Scalar(cp) && !StartsUnicodeEscape(post)
    ensures StringBody(Escapes(Units(cp)) + post, out) == StringBody(post, out + Utf8(cp))
    ensures Utf8Decode(Utf8(cp)) == Some((cp, |Utf8(cp)|))
  {
    var us := Units(cp);
    EscapesBack(us, post, out);
    Utf8Back(cp, []);
    assert Utf8(cp) + [] == Utf8(cp);
    hide Utf8, StringBody;
    if cp < 0x1_0000 {
      assert us[1..] == [];
      assert Taken(us) == Utf8(cp) + [];
    } else {
      assert IsHigh(us[0]) && IsLow(us[1]) && us[2..] == [];
      assert Pair(us[0], us[1]) == cp;
      assert Taken(us) == Utf8(cp) + [];
    }
  }

  // ---- a unit that is not a surrogate stands alone ----

  ghost predicate AreUnits(us: seq<nat>) { forall i :: 0 <= i < |us| ==> us[i] < 0x1_0000 }

  /** Whatever surrogates surround it, a non-surrogate escape is neither consumed nor altered, and it
      separates what is before it from what is behind it. */
  lemma {:induction false} NonSurrogateApart(a: seq<nat>, v: nat, b: seq<nat>)
    requires AreUnits(a) && AreUnits(b) && v < 0x1_0000 && !IsHigh(v) && !IsLow(v)
    ensures Taken(a + [v] + b) == Taken(a) + Utf8(v) + Taken(b)
    decreases |a|
  {
    hide Utf8;
    var us := a + [v] + b;
    if a == [] {
      assert us[1..] == b;
      assert Taken(a) + Utf8(v) == Utf8(v);
    } else if IsHigh(a[0]) && |a| >= 2 {
      assert us[2..] == a[2..] + [v] + b && us[1] == a[1];
      NonSurrogateApart(a[2..], v, b);
      var two := if IsLow(a[1]) then Utf8(Pair(a[0], a[1])) else Utf8(a[0]) + Utf8(a[1]);
      Regroup(two, Taken(a[2..]), Utf8(v), Taken(b));
    } else if IsHigh(a[0]) {
      assert us[2..] == b && us[1] == v;
      assert a[1..] == [] && Utf8(a[0]) + [] == Utf8(a[0]);
    } else {
      assert us[1..] == a[1..] + [v] + b;
      NonSurrogateApart(a[1..], v, b);
      Regroup(Utf8(a[0]), Taken(a[1..]), Utf8(v), Taken(b));
    }
  }

  lemma Regroup(w: Bytes, x: Bytes, y: Bytes, z: Bytes)
    ensures w + (x + y + z) == (w + x) + y + z
  {
  }

  /** So the parser reads its bytes in their place. */
  lemma NonSurrogateBack(a: seq<nat>, v: nat, b: seq<nat>, post: Bytes, out: Bytes)
    requires AreUnits(a) && AreUnits(b) && v < 0x1_0000 && !IsHigh(v) && !IsLow(v) && !StartsUnicodeEscape(post)
    ensures StringBody(Escapes(a + [v] + b) + post, out) == StringBody(post, out + (Taken(a) + Utf8(v) + Taken(b)))
  {
    hide StringBody, Taken, Utf8, Escapes;
    NonSurrogateApart(a, v, b);
    EscapesBack(a + [v] + b, post, out);
  }

  // ---- when the code pairs surrogates as the standard does ----

  /** Every run of high surrogates that ends in a low one has odd length; n of the current run
      were already seen. */
  predicate OddRuns(us: seq<nat>, n: nat) {
    if us == [] then true
    else if IsHigh(us[0]) then OddRuns(us[1..], n + 1)
    else (IsLow(us[0]) && n > 0 ==> n % 2 == 1) && OddRuns(us[1..], 0)
  }

  lemma {:induction false} ParityOnly(us: seq<nat>, n: nat)
    requires n >= 1
    ensures OddRuns(us, n + 2) == OddRuns(us, n)
  {
    if us != [] && IsHigh(us[0]) { ParityOnly(us[1..], n + 1); }
  }

  /** Two highs in front change nothing, unless a low follows at once. */
  lemma TwoHighs(us: seq<nat>)
    ensures OddRuns(us, 2) == (OddRuns(us, 0) && !(us != [] && IsLow(us[0])))
  {
    if us != [] && IsHigh(us[0]) { ParityOnly(us[1..], 1); }
  }

  /** Standing alone never takes fewer bytes than pairing. */
  lemma {:induction false} TakenNoShorter(us: seq<nat>)
    requires forall i :: 0 <= i < |us| ==> us[i] < 0x1_0000
    ensures |Taken(us)| >= |Standard(us)|
    decreases |us|
  {
    if us == [] {
    } else if IsHigh(us[0]) && |us| >= 2 {
      TakenNoShorter(us[2..]);
      if !IsLow(us[1]) {
        var rest := us[1..];
        assert rest[1..] == us[2..];
        if IsHigh(us[1]) && |rest| >= 2 && IsLow(rest[1]) {
          assert us[2..][1..] == rest[2..];
          TakenNoShorter(rest[2..]);
        }
      }
    } else {
      TakenNoShorter(us[1..]);
    }
  }

  /** The code reads a run of escapes as the standard does exactly when every run of high surrogates
      in front of a low one has odd length. */
  lemma {:induction false} PairsAsStandard(us: seq<nat>)
    requires forall i :: 0 <= i < |us| ==> us[i] < 0x1_0000
    ensures Taken(us) == Standard(us) <==> OddRuns(us, 0)
    decreases |us|, 1
  {
    if us == [] {
    } else if IsHigh(us[0]) && |us| >= 2 {
      TakenPair(us);
    } else {
      PairsAsStandard(us[1..]);
      Cancel(Utf8(us[0]), Taken(us[1..]), Standard(us[1..]));
    }
  }

  lemma Cancel(a: Bytes, b: Bytes, c: Bytes)
    ensures a + b == a + c <==> b == c
  {
    assert (a + b)[|a|..] == b && (a + c)[|a|..] == c;
  }

  lemma {:induction false} TakenPair(us: seq<nat>)
    requires |us| >= 2 && IsHigh(us[0]) && forall i :: 0 <= i < |us| ==> us[i] < 0x1_0000
    ensures Taken(us) == Standard(us) <==> OddRuns(us, 0)
    decreases |us|, 0
  {
    var rest := us[2..];
    assert us[1..][1..] == rest;
    PairsAsStandard(rest);
    if IsLow(us[1]) {
      Cancel(Utf8(Pair(us[0], us[1])), Taken(rest), Standard(rest));
    } else if IsHigh(us[1]) && rest != [] && IsLow(rest[0]) {
      // the second high was taken as a companion, and its low is left alone
      TakenNoShorter(rest[1..]);
      TwoHighs(rest);
      assert us[1..][2..] == rest[1..];
      assert |Taken(us)| > |Standard(us)|;
    } else {
      TwoHighs(rest);
      assert Standard(us) == Utf8(us[0]) + (Utf8(us[1]) + Standard(rest));
      assert Utf8(us[0]) + (Utf8(us[1]) + Standard(rest)) == (Utf8(us[0]) + Utf8(us[1])) + Standard(rest);
      Cancel(Utf8(us[0]) + Utf8(us[1]), Taken(rest), Standard(rest));
    }
  }

  /** Two high surrogates and a low one: the standard reads a lone high and a pair, the code three
      lone surrogates. */
  lemma PairIsSplit()
    ensures Taken([0xD83D, 0xD83D, 0xDE00]) == Utf8(0xD83D) + Utf8(0xD83D) + Utf8(0xDE00)
    ensures Standard([0xD83D, 0xD83D, 0xDE00]) == Utf8(0xD83D) + Utf8(0x1F600)
    ensures Taken([0xD83D, 0xD83D, 0xDE00]) != Standard([0xD83D, 0xD83D, 0xDE00])
  {
    var us := [0xD83D, 0xD83D, 0xDE00];
    assert us[1..] == [0xD83D, 0xDE00] && us[2..] == [0xDE00] && us[1..][2..] == [] && us[2..][1..] == [];
    assert !OddRuns(us, 0);
    PairsAsStandard(us);
  }
}

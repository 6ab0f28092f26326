/**
 Unsigned integers in JSON: `json_uint_array` of core/json_write.h against the parser and the integer
 accessor of core/json.cpp.
 */
module JsonNumbers {
  import opened JsonText
  import opened JsonRoundTrip
  import opened JsonGrammar
  import opened JsonDocuments

  /** Decimal digits of n, without leading zeros. */
  function Decimal(n: nat): (t: Bytes)
    ensures t != [] && forall i :: 0 <= i < |t| ==> IsDigit(t[i])
  {
    if n < 10 then [0x30 + n] else Decimal(n / 10) + [0x30 + n % 10]
  }

  const UINT64_LIMIT: nat := 0x1_0000_0000_0000_0000

  /** The value of a run of digits. */
  function DigitsValue(t: Bytes): (n: nat)
    requires forall i :: 0 <= i < |t| ==> IsDigit(t[i])
  {
    if t == [] then 0
    else
      assert IsDigit(t[|t| - 1]);
      var digit: int := t[|t| - 1];
      DigitsValue(t[..|t| - 1]) * 10 + (digit - 0x30)
  }

  /** Reading a number as unsigned: a literal of digits only, behind an optional plus sign, that fits
      64 bits. Other literals take the way through the double, which is not modelled. */
  datatype AsUint = Exact(value: nat) | NotANumber | ThroughDouble

  function UintOf(v: Json): AsUint {
    if !v.Number? then NotANumber
    else
      var t := if v.raw != [] && v.raw[0] == 0x2B then v.raw[1..] else v.raw;
      if t != [] && (forall i :: 0 <= i < |t| ==> IsDigit(t[i])) && DigitsValue(t) < UINT64_LIMIT
      then Exact(DigitsValue(t)) else ThroughDouble
  }

  lemma {:induction false} DecimalBack(n: nat)
    ensures DigitsValue(Decimal(n)) == n
  {
    if n < 10 {
      assert Decimal(n)[..0] == [];
    } else {
      DecimalBack(n / 10);
      assert Decimal(n)[..|Decimal(n)| - 1] == Decimal(n / 10);
    }
  }

  /** The decimal digits as a numeral. */
  function Written(n: nat): Numeral { Numeral([], Decimal(n), false, [], NoExponent) }

  lemma WrittenIs(n: nat)
    ensures IsNumeral(Written(n)) && NumeralText(Written(n)) == Decimal(n)
  {
  }

  /** The comma-separated digits that `json_uint_array` writes. */
  function Listed(v: seq<nat>): Bytes {
    if v == [] then []
    else Listed(v[..|v| - 1]) + (if |v| == 1 then [] else [COMMA]) + Decimal(v[|v| - 1])
  }

  method JsonUintArray(v: seq<nat>) returns (out: Bytes)
    ensures out == [LBRACKET] + Listed(v) + [RBRACKET]
  {
    out := [LBRACKET];
    for i := 0 to |v|
      invariant out == [LBRACKET] + Listed(v[..i])
    {
      assert v[..i + 1][..i] == v[..i];
      if i > 0 { out := out + [COMMA]; }
      out := out + Decimal(v[i]);
    }
    assert v[..|v|] == v;
    out := out + [RBRACKET];
  }

  function ItemOf(n: nat): Item { Item([], TNumber(Written(n)), []) }

  function ItemsOf(v: seq<nat>): (r: seq<Item>)
    ensures |r| == |v|
  {
    seq(|v|, i requires 0 <= i < |v| => ItemOf(v[i]))
  }

  lemma {:induction false} PrintItemsSnoc(items: seq<Item>, it: Item)
    requires items != []
    ensures PrintItems(items + [it]) == PrintItems(items) + [COMMA] + PrintItem(it)
    decreases items
  {
    hide Print;
    var all := items + [it];
    assert all[1..] == items[1..] + [it];
    if |items| > 1 { PrintItemsSnoc(items[1..], it); }
  }

  lemma {:induction false} ListedIsPrinted(v: seq<nat>)
    requires v != []
    ensures PrintItems(ItemsOf(v)) == Listed(v)
  {
    var n := |v| - 1;
    var init := v[..n];
    WrittenIs(v[n]);
    assert PrintItem(ItemOf(v[n])) == [] + Decimal(v[n]) + [] == Decimal(v[n]);
    if n == 0 {
      assert Listed(v) == [] + [] + Decimal(v[0]) == Decimal(v[0]);
    } else {
      ListedIsPrinted(init);
      assert ItemsOf(v) == ItemsOf(init) + [ItemOf(v[n])];
      PrintItemsSnoc(ItemsOf(init), ItemOf(v[n]));
    }
  }

  lemma {:induction false} MeaningsAt(items: seq<Item>, i: nat)
    requires i < |items|
    ensures |Meanings(items)| == |items| && Meanings(items)[i] == Meaning(items[i].value)
    decreases |items|
  {
    if i > 0 { MeaningsAt(items[1..], i - 1); }
    else if |items| > 1 { MeaningsAt(items[1..], 0); }
  }

  lemma {:induction false} FlatHeight(v: seq<nat>)
    ensures ItemsHeight(ItemsOf(v)) <= 1
  {
    if v != [] {
      FlatHeight(v[1..]);
      assert ItemsOf(v)[1..] == ItemsOf(v[1..]);
    }
  }

  /** An array of 64-bit unsigned numbers, written and parsed, reads back as those numbers. */
  lemma UintArrayBack(v: seq<nat>) returns (items: seq<Json>)
    requires forall i :: 0 <= i < |v| ==> v[i] < 18446744073709551616
    ensures ParseDocument([LBRACKET] + Listed(v) + [RBRACKET]) == Ok(Arr(items), [])
    ensures |items| == |v| && forall i :: 0 <= i < |v| ==> UintOf(items[i]) == Exact(v[i])
  {
    PrintedArray(v);
    items := Meanings(ItemsOf(v));
    hide ParseDocument, Print, Listed;
    DocumentBack(TArr([], ItemsOf(v)), [], [], false);
    FlatHeight(v);
    var text := [LBRACKET] + Listed(v) + [RBRACKET];
    assert [] + ([] + (text + [])) == text;
    forall i | 0 <= i < |v| ensures |items| == |v| && UintOf(items[i]) == Exact(v[i]) { ItemBack(v, i); }
    if v == [] { assert ItemsOf(v) == []; }
  }

  lemma PrintedArray(v: seq<nat>)
    ensures WellFormed(TArr([], ItemsOf(v))) && Print(TArr([], ItemsOf(v))) == [LBRACKET] + Listed(v) + [RBRACKET]
  {
    forall i | 0 <= i < |v| ensures WellFormedItem(ItemsOf(v)[i]) { WrittenIs(v[i]); }
    if v != [] { ListedIsPrinted(v); }
  }

  lemma ItemBack(v: seq<nat>, i: nat)
    requires i < |v| && v[i] < UINT64_LIMIT
    ensures var items := Meanings(ItemsOf(v)); |items| == |v| && UintOf(items[i]) == Exact(v[i])
  {
    MeaningsAt(ItemsOf(v), i);
    DecimalBack(v[i]);
    WrittenIs(v[i]);
  }

  /** A decimal, with a plus sign or without, is read exactly when it fits 64 bits. */
  lemma UintExactly(n: nat, plus: bool)
    ensures UintOf(Number((if plus then ['+' as int] else []) + Decimal(n)))
         == if n < 18446744073709551616 then Exact(n) else ThroughDouble
  {
    DecimalBack(n);
    var d := Decimal(n);
    hide Decimal, DigitsValue;
    if plus {
      assert (['+' as int] + d)[1..] == d;
    } else {
      assert [] + d == d;
      assert IsDigit(d[0]);
    }
  }
}

/**
 * The inventory slots of a machine: MachineController::getInventories
 * returns strings `"<hop>.<padded actual>"`, one per actual value, and
 * DeviceData::getIventoryParserValues builds the same strings and returns
 * them read as numbers.
 *
 * `hop` and `actual` are the decoded `values` of the latest tag-15 and
 * tag-16 rows, when the query found them. A zero actual value is printed
 * with `%01d` ("0"), any other with `%03d` (at least three digits, padded
 * with zeros). The partner of the string builder is a parser: every entry
 * reads back as the pair it was built from. `floatval` is an exact decimal
 * reading here; below 1000 the number still determines the pair, from four
 * digits on it does not.
 */
module Inventory {
  import opened Common

  // ---------------------------------------------------------------------------
  // Decimal text
  // ---------------------------------------------------------------------------

  predicate IsDigit(c: char)
  {
    '0' <= c <= '9'
  }

  predicate AllDigits(s: string)
  {
    forall k :: 0 <= k < |s| ==> IsDigit(s[k])
  }

  function DigitChar(d: nat): (c: char)
    requires d < 10
    ensures IsDigit(c)
  {
    ('0' as int + d) as char
  }

  function DigitValue(c: char): (d: nat)
    requires IsDigit(c)
    ensures d < 10 && DigitChar(d) == c
  {
    c as int - '0' as int
  }

  /** The decimal text of n without leading zeros (`strval` of a natural number). */
  function NatToDecimal(n: nat): (s: string)
    ensures |s| >= 1 && AllDigits(s)
    ensures |s| > 1 ==> s[0] != '0'
  {
    if n < 10 then [DigitChar(n)] else NatToDecimal(n / 10) + [DigitChar(n % 10)]
  }

  /** `strval` of an integer: a minus sign before the digits of a negative one. */
  function IntToDecimal(x: int): string
  {
    if x < 0 then "-" + NatToDecimal(-x) else NatToDecimal(x)
  }

  function Zeros(k: nat): (s: string)
    ensures |s| == k && forall j :: 0 <= j < k ==> s[j] == '0'
  {
    if k == 0 then [] else Zeros(k - 1) + "0"
  }

  /** `sprintf('%0<width>d', n)` for a natural n: its digits left-padded with zeros to at least width. */
  function ZeroPadded(n: nat, width: nat): string
  {
    var digits := NatToDecimal(n);
    (if |digits| < width then Zeros(width - |digits|) else []) + digits
  }

  /** The part after the dot: `%01d` for a zero value, `%03d` for any other. */
  function Fraction(v: nat): string
  {
    if v == 0 then ZeroPadded(v, 1) else ZeroPadded(v, 3)
  }

  /** `strval($hop[$i]) . '.' . $inv2`. */
  function Entry(hop: int, actual: nat): string
  {
    IntToDecimal(hop) + "." + Fraction(actual)
  }

  // ---------------------------------------------------------------------------
  // The builders
  // ---------------------------------------------------------------------------

  /**
   * The list built, or the index at which the hop values ran out: PHP
   * raises on the undefined offset and the request fails there.
   */
  datatype Outcome<T> = Entries(items: seq<T>) | UndefinedHopIndex(index: nat)

  /** The strings MachineController::getInventories returns. */
  function Inventories(hop: Option<seq<int>>, actual: Option<seq<nat>>): Outcome<string>
  {
    if hop.None? || actual.None? then Entries([])
    else if |hop.value| < |actual.value| then UndefinedHopIndex(|hop.value|)
    else Entries(seq(|actual.value|, i requires 0 <= i < |actual.value| => Entry(hop.value[i], actual.value[i])))
  }

  /** The numbers DeviceData::getIventoryParserValues returns: the same strings through `floatval`. */
  function ParserValues(hop: Option<seq<int>>, actual: Option<seq<nat>>): Outcome<real>
  {
    match Inventories(hop, actual)
    case UndefinedHopIndex(k) => UndefinedHopIndex(k)
    case Entries(items) => Entries(seq(|items|, i requires 0 <= i < |items| => Floatval(items[i])))
  }

  /** MachineController::getInventories: one string per actual value, pushed in order. */
  method GetInventories(hopInventory: Option<seq<int>>, actualInventory: Option<seq<nat>>) returns (r: Outcome<string>)
    ensures r == Inventories(hopInventory, actualInventory)
  {
    var inventories: seq<string> := [];
    if hopInventory.Some? && actualInventory.Some? {
      var inventoryValues := actualInventory.value;
      var hopValues := hopInventory.value;
      for i := 0 to |inventoryValues|
        invariant i <= |hopValues|
        invariant |inventories| == i
        invariant forall k :: 0 <= k < i ==> inventories[k] == Entry(hopValues[k], inventoryValues[k])
      {
        var inv2: string;
        if inventoryValues[i] == 0 {
          inv2 := ZeroPadded(inventoryValues[i], 1);
        } else {
          inv2 := ZeroPadded(inventoryValues[i], 3);
        }
        if i >= |hopValues| {
          return UndefinedHopIndex(i);
        }
        var inv := IntToDecimal(hopValues[i]) + "." + inv2;
        assert inv2 == Fraction(inventoryValues[i]);
        assert inv == Entry(hopValues[i], inventoryValues[i]);
        EntriesExtend(inventories, inv, hopValues, inventoryValues);
        inventories := inventories + [inv];
      }
    } else {
      inventories := [];
    }
    r := Entries(inventories);
  }

  /** DeviceData::getIventoryParserValues: the same loop, each string read as a number. */
  method GetIventoryParserValues(hopInventory: Option<seq<int>>, actualInventory: Option<seq<nat>>) returns (r: Outcome<real>)
    ensures r == ParserValues(hopInventory, actualInventory)
  {
    var inventories: seq<real> := [];
    if hopInventory.Some? && actualInventory.Some? {
      var inventoryValues := actualInventory.value;
      var hopValues := hopInventory.value;
      for i := 0 to |inventoryValues|
        invariant i <= |hopValues|
        invariant |inventories| == i
        invariant forall k :: 0 <= k < i ==> inventories[k] == Floatval(Entry(hopValues[k], inventoryValues[k]))
      {
        var inv2: string;
        if inventoryValues[i] == 0 {
          inv2 := ZeroPadded(inventoryValues[i], 1);
        } else {
          inv2 := ZeroPadded(inventoryValues[i], 3);
        }
        if i >= |hopValues| {
          return UndefinedHopIndex(i);
        }
        var inv := IntToDecimal(hopValues[i]) + "." + inv2;
        assert inv2 == Fraction(inventoryValues[i]);
        assert inv == Entry(hopValues[i], inventoryValues[i]);
        ValuesExtend(inventories, Floatval(inv), hopValues, inventoryValues);
        inventories := inventories + [Floatval(inv)];
      }
    }
    r := Entries(inventories);
  }

  /** One more entry keeps the list equal to the entries of a longer prefix. */
  lemma EntriesExtend(items: seq<string>, inv: string, hop: seq<int>, actual: seq<nat>)
    requires |items| < |actual| && |items| < |hop|
    requires forall k :: 0 <= k < |items| ==> items[k] == Entry(hop[k], actual[k])
    requires inv == Entry(hop[|items|], actual[|items|])
    ensures forall k :: 0 <= k < |items| + 1 ==> (items + [inv])[k] == Entry(hop[k], actual[k])
  {
  }

  lemma ValuesExtend(items: seq<real>, x: real, hop: seq<int>, actual: seq<nat>)
    requires |items| < |actual| && |items| < |hop|
    requires forall k :: 0 <= k < |items| ==> items[k] == Floatval(Entry(hop[k], actual[k]))
    requires x == Floatval(Entry(hop[|items|], actual[|items|]))
    ensures forall k :: 0 <= k < |items| + 1 ==> (items + [x])[k] == Floatval(Entry(hop[k], actual[k]))
  {
  }

  /**
   * Without both rows the list is empty; with both it has one entry per
   * actual value exactly when every actual value has a hop value beside it,
   * and otherwise fails at the first missing hop index.
   */
  lemma InventoriesShape(hop: Option<seq<int>>, actual: Option<seq<nat>>)
    ensures hop.None? || actual.None? ==> Inventories(hop, actual) == Entries([])
    ensures hop.Some? && actual.Some? ==>
      (Inventories(hop, actual).Entries? <==> |actual.value| <= |hop.value|)
    ensures hop.Some? && actual.Some? && Inventories(hop, actual).Entries? ==>
      |Inventories(hop, actual).items| == |actual.value|
    ensures hop.Some? && actual.Some? && Inventories(hop, actual).UndefinedHopIndex? ==>
      Inventories(hop, actual).index == |hop.value|
  {
  }

  /** Each number is the exact value of its entry: the hop plus (or, for a negative hop, minus) the fraction. */
  lemma ParserValuesAt(hop: Option<seq<int>>, actual: Option<seq<nat>>, i: nat)
    requires hop.Some? && actual.Some? && i < |actual.value| <= |hop.value|
    ensures ParserValues(hop, actual).Entries?
    ensures |ParserValues(hop, actual).items| == |actual.value|
    ensures ParserValues(hop, actual).items[i] == InventoryValue(hop.value[i], actual.value[i])
  {
    FloatvalOfEntry(hop.value[i], actual.value[i]);
  }
  // ---------------------------------------------------------------------------
  // The padded fraction
  // ---------------------------------------------------------------------------

  /** A zero value prints as "0"; any other as its digits padded to at least three. */
  lemma FractionShape(v: nat)
    ensures v == 0 ==> Fraction(v) == "0"
    ensures v != 0 ==> |Fraction(v)| == (if |NatToDecimal(v)| < 3 then 3 else |NatToDecimal(v)|)
    ensures v != 0 ==> Fraction(v)[|Fraction(v)| - |NatToDecimal(v)|..] == NatToDecimal(v)
    ensures v != 0 ==> forall j :: 0 <= j < |Fraction(v)| - |NatToDecimal(v)| ==> Fraction(v)[j] == '0'
    ensures AllDigits(Fraction(v))
  {
    if v == 0 {
      assert ZeroPadded(0, 1) == [] + "0";
    }
  }

  lemma FractionExamples()
    ensures Fraction(0) == "0"
    ensures Fraction(7) == "007"
    ensures Fraction(45) == "045"
    ensures Fraction(1234) == "1234"
  {
    assert NatToDecimal(7) == "7";
    assert Zeros(2) == "00" by { assert Zeros(1) == "0"; }
    assert NatToDecimal(45) == "45" by { assert NatToDecimal(4) == "4"; }
    assert NatToDecimal(1234) == "1234" by {
      assert NatToDecimal(1) == "1";
      assert NatToDecimal(12) == "12";
      assert NatToDecimal(123) == "123";
    }
    assert Fraction(0) == [] + "0";
  }

  // ---------------------------------------------------------------------------
  // Reading an entry back
  // ---------------------------------------------------------------------------

  /** The value of a run of digits, most significant first; leading zeros add nothing. */
  function ParseNat(s: string): nat
    requires AllDigits(s)
  {
    if s == [] then 0 else ParseNat(s[..|s| - 1]) * 10 + DigitValue(s[|s| - 1])
  }

  /** An optional minus sign followed by at least one digit. */
  predicate IsIntText(s: string)
  {
    if |s| > 0 && s[0] == '-' then |s| > 1 && AllDigits(s[1..]) else |s| > 0 && AllDigits(s)
  }

  function ParseInt(s: string): int
    requires IsIntText(s)
  {
    if s[0] == '-' then -(ParseNat(s[1..]) as int) else ParseNat(s)
  }

  /** The index of the first '.', or |s| when there is none. */
  function FirstDot(s: string): (k: nat)
    ensures k <= |s|
    ensures k < |s| ==> s[k] == '.'
    ensures forall j :: 0 <= j < k ==> s[j] != '.'
  {
    if s == [] then 0 else if s[0] == '.' then 0 else 1 + FirstDot(s[1..])
  }

  datatype InventoryPair = InventoryPair(hop: int, actual: nat)

  /** Split at the first dot and read both sides as numbers. */
  function ParseEntry(s: string): Option<InventoryPair>
  {
    var k := FirstDot(s);
    if k == |s| then None
    else
      var left, right := s[..k], s[k + 1..];
      if IsIntText(left) && right != [] && AllDigits(right) then Some(InventoryPair(ParseInt(left), ParseNat(right)))
      else None
  }

  lemma {:induction false} ParseNatAppend(s: string, c: char)
    requires AllDigits(s) && IsDigit(c)
    ensures AllDigits(s + [c]) && ParseNat(s + [c]) == ParseNat(s) * 10 + DigitValue(c)
  {
    assert (s + [c])[..|s|] == s;
  }

  /** Reading the decimal text of n gives n back. */
  lemma {:induction false} NatDecimalRoundTrip(n: nat)
    ensures ParseNat(NatToDecimal(n)) == n
  {
    if n >= 10 {
      NatDecimalRoundTrip(n / 10);
      ParseNatAppend(NatToDecimal(n / 10), DigitChar(n % 10));
    } else {
      assert NatToDecimal(n)[..0] == [];
    }
  }

  /** Leading zeros do not change the value. */
  lemma {:induction false} ParseNatLeadingZeros(k: nat, s: string)
    requires AllDigits(s)
    ensures AllDigits(Zeros(k) + s) && ParseNat(Zeros(k) + s) == ParseNat(s)
    decreases |s|, k
  {
    if s == [] {
      assert Zeros(k) + s == Zeros(k);
      if k > 0 {
        ParseNatLeadingZeros(k - 1, []);
        assert Zeros(k - 1) + [] == Zeros(k - 1);
        assert Zeros(k)[..k - 1] == Zeros(k - 1);
      }
    } else {
      var init := s[..|s| - 1];
      ParseNatLeadingZeros(k, init);
      assert (Zeros(k) + s)[..|Zeros(k) + s| - 1] == Zeros(k) + init;
    }
  }

  /** The padded fraction reads back as the value it was printed from. */
  lemma FractionRoundTrip(v: nat)
    ensures AllDigits(Fraction(v)) && |Fraction(v)| > 0 && ParseNat(Fraction(v)) == v
  {
    var digits := NatToDecimal(v);
    var width := if v == 0 then 1 else 3;
    var pad := if |digits| < width then width - |digits| else 0;
    assert Fraction(v) == Zeros(pad) + digits;
    ParseNatLeadingZeros(pad, digits);
    NatDecimalRoundTrip(v);
  }

  /** The hop text reads back as the hop value. */
  lemma IntDecimalRoundTrip(x: int)
    ensures IsIntText(IntToDecimal(x)) && ParseInt(IntToDecimal(x)) == x
    ensures forall j :: 0 <= j < |IntToDecimal(x)| ==> IntToDecimal(x)[j] != '.'
    ensures IntToDecimal(x)[0] == '-' <==> x < 0
  {
    NatDecimalRoundTrip(if x < 0 then -x else x);
    if x < 0 {
      assert IntToDecimal(x)[1..] == NatToDecimal(-x);
    }
  }

  /**
   * An entry is the hop text, exactly one dot, then the padded fraction:
   * the only dot is the one after the hop text.
   */
  lemma EntryShape(hop: int, actual: nat)
    ensures var e := Entry(hop, actual);
      var k := |IntToDecimal(hop)|;
      && e[..k] == IntToDecimal(hop)
      && e[k] == '.'
      && e[k + 1..] == Fraction(actual)
      && (forall j :: 0 <= j < |e| && e[j] == '.' ==> j == k)
  {
    IntDecimalRoundTrip(hop);
    FractionShape(actual);
    DotJoin(IntToDecimal(hop), Fraction(actual));
  }

  /** Joining dot-free text and digits with a dot: the only dot is the joining one. */
  lemma DotJoin(a: string, b: string)
    requires forall j :: 0 <= j < |a| ==> a[j] != '.'
    requires AllDigits(b)
    ensures var e := a + "." + b;
      && e[..|a|] == a
      && e[|a|] == '.'
      && e[|a| + 1..] == b
      && (forall j :: 0 <= j < |e| && e[j] == '.' ==> j == |a|)
  {
    var e := a + "." + b;
    assert e[|a| + 1..] == b;
    assert forall j :: |a| < j < |e| ==> e[j] == b[j - |a| - 1];
  }

  /** Every entry the builder makes reads back as the pair it was built from. */
  lemma EntryRoundTrip(hop: int, actual: nat)
    ensures ParseEntry(Entry(hop, actual)) == Some(InventoryPair(hop, actual))
  {
    var e := Entry(hop, actual);
    var k := |IntToDecimal(hop)|;
    EntryShape(hop, actual);
    IntDecimalRoundTrip(hop);
    FractionRoundTrip(actual);
    assert FirstDot(e) == k;
  }

  /** Hence distinct pairs never print as the same entry. */
  lemma EntryInjective(h1: int, a1: nat, h2: int, a2: nat)
    requires Entry(h1, a1) == Entry(h2, a2)
    ensures h1 == h2 && a1 == a2
  {
    EntryRoundTrip(h1, a1);
    EntryRoundTrip(h2, a2);
  }

  // ---------------------------------------------------------------------------
  // floatval
  // ---------------------------------------------------------------------------

  function Pow10(n: nat): (p: nat)
    ensures p >= 1
  {
    if n == 0 then 1 else 10 * Pow10(n - 1)
  }

  /**
   * The exact value of a decimal text "<int>.<digits>": the sign of the
   * integer part applies to the fraction too, so "-2.5" is -2.5. Other text
   * has no value here.
   */
  function DecimalText(s: string): Option<real>
  {
    var k := FirstDot(s);
    if k == |s| then None
    else
      var left, right := s[..k], s[k + 1..];
      if IsIntText(left) && right != [] && AllDigits(right) then
        var whole := ParseInt(left) as real;
        var frac := ParseNat(right) as real / Pow10(|right|) as real;
        Some(if left[0] == '-' then whole - frac else whole + frac)
      else None
  }

  /** `floatval` on the decimal texts the builders make, as an exact real. */
  function Floatval(s: string): real
  {
    match DecimalText(s)
    case Some(x) => x
    case None => 0.0
  }

  /** The fractional part an actual value contributes: its printed digits after the dot. */
  function FractionValue(actual: nat): real
  {
    actual as real / Pow10(|Fraction(actual)|) as real
  }

  /** The number an inventory slot stands for. */
  function InventoryValue(hop: int, actual: nat): real
  {
    if hop < 0 then hop as real - FractionValue(actual) else hop as real + FractionValue(actual)
  }

  /** Reading an entry as a number gives the hop moved away from zero by the fraction. */
  lemma FloatvalOfEntry(hop: int, actual: nat)
    ensures Floatval(Entry(hop, actual)) == InventoryValue(hop, actual)
  {
    var e := Entry(hop, actual);
    EntryShape(hop, actual);
    IntDecimalRoundTrip(hop);
    FractionRoundTrip(actual);
    assert FirstDot(e) == |IntToDecimal(hop)|;
  }

  lemma {:induction false} BelowPow10(n: nat)
    ensures n < Pow10(|NatToDecimal(n)|)
  {
    if n >= 10 {
      BelowPow10(n / 10);
    }
  }

  /** The fraction lies in [0, 1), and is 0 only for a zero actual value. */
  lemma FractionValueBounds(actual: nat)
    ensures 0.0 <= FractionValue(actual) < 1.0
    ensures FractionValue(actual) == 0.0 <==> actual == 0
  {
    var digits := NatToDecimal(actual);
    BelowPow10(actual);
    FractionShape(actual);
    PowMonotone(|digits|, |Fraction(actual)|);
    QuotientBelowOne(actual as real, Pow10(|Fraction(actual)|) as real);
  }

  lemma QuotientBelowOne(a: real, p: real)
    requires 0.0 <= a < p
    ensures 0.0 <= a / p < 1.0
    ensures a / p == 0.0 <==> a == 0.0
  {
    ScaledBelowOne(a / p, a, p);
  }

  lemma ScaledBelowOne(q: real, a: real, p: real)
    requires 0.0 <= a < p && q * p == a
    ensures 0.0 <= q < 1.0
    ensures q == 0.0 <==> a == 0.0
  {
    PositiveFactor(1.0 - q, p);
    PositiveFactor(q, p);
    assert (1.0 - q) * p == p - q * p;
  }

  lemma PositiveFactor(x: real, p: real)
    requires p > 0.0
    ensures x > 0.0 <==> x * p > 0.0
    ensures x == 0.0 <==> x * p == 0.0
  {
  }

  lemma {:induction false} PowMonotone(m: nat, n: nat)
    requires m <= n
    ensures Pow10(m) <= Pow10(n)
  {
    if m < n {
      PowMonotone(m, n - 1);
    }
  }

  /** An actual value below 1000 is read as thousandths. */
  lemma ThousandthsBelowThousand(actual: nat)
    requires actual < 1000
    ensures FractionValue(actual) == actual as real / 1000.0
  {
    if actual != 0 {
      assert |NatToDecimal(actual)| <= 3 by {
        if actual >= 10 {
          assert |NatToDecimal(actual / 10)| <= 2 by {
            if actual / 10 >= 10 {
              assert |NatToDecimal(actual / 10 / 10)| == 1;
            }
          }
        }
      }
      FractionShape(actual);
      assert Pow10(3) == 1000;
    }
  }

  /** The number lies between the hop and the next integer away from zero. */
  lemma InventoryValueBounds(hop: int, actual: nat)
    ensures hop >= 0 ==> hop as real <= InventoryValue(hop, actual) < hop as real + 1.0
    ensures hop < 0 ==> hop as real - 1.0 < InventoryValue(hop, actual) <= hop as real
  {
    FractionValueBounds(actual);
  }

  /** While actual values stay below 1000 the number determines the hop and the actual value. */
  lemma InventoryValueInjectiveBelowThousand(h1: int, a1: nat, h2: int, a2: nat)
    requires a1 < 1000 && a2 < 1000
    requires InventoryValue(h1, a1) == InventoryValue(h2, a2)
    ensures h1 == h2 && a1 == a2
  {
    ThousandthsBelowThousand(a1);
    ThousandthsBelowThousand(a2);
    InventoryValueBounds(h1, a1);
    InventoryValueBounds(h2, a2);
    var s1 := if h1 < 0 then -1 else 1;
    var s2 := if h2 < 0 then -1 else 1;
    assert (1000 * h1 + s1 * a1) as real == 1000.0 * InventoryValue(h1, a1);
    assert (1000 * h2 + s2 * a2) as real == 1000.0 * InventoryValue(h2, a2);
  }

  /** From four digits on the padding no longer separates values: 100 and 1000 both read as .1. */
  lemma FourDigitActualCollides()
    ensures Entry(1, 100) == "1.100" && Entry(1, 1000) == "1.1000"
    ensures InventoryValue(1, 100) == InventoryValue(1, 1000) == 1.1
  {
    assert NatToDecimal(1) == "1";
    assert NatToDecimal(10) == "10";
    assert NatToDecimal(100) == "100";
    assert NatToDecimal(1000) == "1000";
    assert Fraction(100) == [] + "100";
    assert Fraction(1000) == [] + "1000";
    assert Pow10(3) == 1000;
    assert Pow10(4) == 10000;
  }
}

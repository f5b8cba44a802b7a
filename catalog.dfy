/** The read-only queries of the store service over its ordered inventory:
    `findProductByName` and the four aggregates. */
module Catalog {
  import opened Wrappers
  import opened Text
  import opened Decimals
  import opened Dates
  import opened Products

  // ---------------------------------------------------------------------
  // findProductByName
  // ---------------------------------------------------------------------

  /** The position of the first entry whose name equals `name` ignoring case, or -1. */
  function FirstNamed(inv: seq<Record>, name: string): (i: int)
    ensures -1 <= i < |inv|
    ensures i >= 0 ==> EqualsIgnoreCase(inv[i].name, name)
    ensures i >= 0 ==> forall j :: 0 <= j < i ==> !EqualsIgnoreCase(inv[j].name, name)
    ensures i == -1 ==> forall j :: 0 <= j < |inv| ==> !EqualsIgnoreCase(inv[j].name, name)
  {
    if |inv| == 0 then -1
    else if EqualsIgnoreCase(inv[0].name, name) then 0
    else
      var k := FirstNamed(inv[1..], name);
      if k < 0 then -1 else k + 1
  }

  /** `findProductByName`: the first entry whose name equals `name` ignoring
      case, or nothing. */
  function FindProductByName(inv: seq<Record>, name: string): (r: Option<Record>)
    ensures r.Some? <==> exists i :: 0 <= i < |inv| && EqualsIgnoreCase(inv[i].name, name)
    ensures r.Some? ==> exists i :: 0 <= i < |inv| && inv[i] == r.value && EqualsIgnoreCase(inv[i].name, name)
                                   && forall j :: 0 <= j < i ==> !EqualsIgnoreCase(inv[j].name, name)
  {
    var i := FirstNamed(inv, name);
    if i < 0 then None else Some(inv[i])
  }

  // ---------------------------------------------------------------------
  // getTotalQuantity
  // ---------------------------------------------------------------------

  /** The exact sum of the quantities. */
  function SumQuantity(inv: seq<Record>): int {
    if |inv| == 0 then 0 else SumQuantity(inv[..|inv| - 1]) + inv[|inv| - 1].quantity
  }

  /** `getTotalQuantity`: `IntStream.sum`, adding in `int` arithmetic from the
      first entry to the last, each step wrapping around. */
  function TotalQuantity(inv: seq<Record>): Int32 {
    if |inv| == 0 then 0 else Wrap32(TotalQuantity(inv[..|inv| - 1]) + inv[|inv| - 1].quantity)
  }

  lemma Wrap32Add(a: int, b: int)
    ensures Wrap32(Wrap32(a) + b) == Wrap32(a + b)
  {
    var w := Wrap32(a);
    var k := (w - a) / 0x1_0000_0000;
    assert w == a + k * 0x1_0000_0000;
    var x := w + b - MinInt32;
    assert x == (a + b - MinInt32) + k * 0x1_0000_0000;
    ModShift(a + b - MinInt32, k);
  }

  lemma ModShift(x: int, k: int)
    ensures (x + k * 0x1_0000_0000) % 0x1_0000_0000 == x % 0x1_0000_0000
  {
  }

  /** The wrapped step-by-step sum is the exact sum wrapped once; while the
      exact sum fits in an `int` it is the exact sum. */
  lemma {:induction false} TotalQuantityIsWrappedSum(inv: seq<Record>)
    ensures TotalQuantity(inv) == Wrap32(SumQuantity(inv))
  {
    if |inv| > 0 {
      var init := inv[..|inv| - 1];
      TotalQuantityIsWrappedSum(init);
      Wrap32Add(SumQuantity(init), inv[|inv| - 1].quantity);
    }
  }

  // ---------------------------------------------------------------------
  // BigDecimal sums
  // ---------------------------------------------------------------------

  /** `stream.reduce(BigDecimal.ZERO, BigDecimal::add)`: a left fold from zero. */
  function DecimalSum(xs: seq<Decimal>): Decimal {
    if |xs| == 0 then Zero else Add(DecimalSum(xs[..|xs| - 1]), xs[|xs| - 1])
  }

  function SumUnscaled(xs: seq<Decimal>): int {
    if |xs| == 0 then 0 else SumUnscaled(xs[..|xs| - 1]) + xs[|xs| - 1].unscaled
  }

  /** Adding amounts that all have scale 2 is exact: the sum has scale 2
      (or is `ZERO` for no terms) and its hundredths are the sum of theirs. */
  lemma {:induction false} DecimalSumOfCents(xs: seq<Decimal>)
    requires forall i :: 0 <= i < |xs| ==> xs[i].scale == 2
    ensures SetScale2(DecimalSum(xs)) == SumUnscaled(xs)
    ensures |xs| > 0 ==> DecimalSum(xs) == Decimal(SumUnscaled(xs), 2)
  {
    if |xs| > 0 {
      var init := xs[..|xs| - 1];
      var last := xs[|xs| - 1];
      assert last == FromCents(last.unscaled);
      if |init| == 0 {
        AddCents(0, last.unscaled);
      } else {
        DecimalSumOfCents(init);
        AddCents(SumUnscaled(init), last.unscaled);
      }
      SetScale2Idempotent(SumUnscaled(xs));
    } else {
      assert Pow10(0) == 1;
    }
  }

  // ---------------------------------------------------------------------
  // getTotalGrossPrice
  // ---------------------------------------------------------------------

  /** price × quantity per entry (`getPrice().multiply(BigDecimal.valueOf(getQuantity()))`). */
  function LineTotals(inv: seq<Record>): (r: seq<Decimal>)
    ensures |r| == |inv|
    ensures forall i :: 0 <= i < |inv| ==> r[i] == Mul(FromCents(inv[i].price), Decimal(inv[i].quantity, 0))
  {
    if |inv| == 0 then [] else LineTotals(inv[..|inv| - 1]) + [Mul(FromCents(inv[|inv| - 1].price), Decimal(inv[|inv| - 1].quantity, 0))]
  }

  /** The exact sum of price × quantity, in hundredths. */
  function SumGross(inv: seq<Record>): int {
    if |inv| == 0 then 0 else SumGross(inv[..|inv| - 1]) + inv[|inv| - 1].price * inv[|inv| - 1].quantity
  }

  /** `getTotalGrossPrice`. */
  function GrossPrice(inv: seq<Record>): Cents {
    SetScale2(DecimalSum(LineTotals(inv)))
  }

  /** The gross price is the exact sum of price × quantity: nothing is rounded. */
  lemma {:induction false} GrossPriceExact(inv: seq<Record>)
    ensures GrossPrice(inv) == SumGross(inv)
  {
    var xs := LineTotals(inv);
    DecimalSumOfCents(xs);
    LineTotalsSum(inv);
  }

  lemma {:induction false} LineTotalsSum(inv: seq<Record>)
    ensures SumUnscaled(LineTotals(inv)) == SumGross(inv)
  {
    if |inv| > 0 {
      var init := inv[..|inv| - 1];
      LineTotalsSum(init);
      assert LineTotals(inv)[..|inv| - 1] == LineTotals(init);
    }
  }

  // ---------------------------------------------------------------------
  // getTotalPriceWithPerishableDiscount and getTotalNetPriceWithDiscount
  // ---------------------------------------------------------------------

  /** Each entry's `getTotalValue()` on the day `today`. */
  function Values(inv: seq<Record>, today: LocalDate): (r: seq<Decimal>)
    ensures |r| == |inv|
    ensures forall i :: 0 <= i < |inv| ==> r[i] == FromCents(TotalValue(inv[i], today))
  {
    if |inv| == 0 then [] else Values(inv[..|inv| - 1], today) + [FromCents(TotalValue(inv[|inv| - 1], today))]
  }

  function SumValues(inv: seq<Record>, today: LocalDate): int {
    if |inv| == 0 then 0 else SumValues(inv[..|inv| - 1], today) + TotalValue(inv[|inv| - 1], today)
  }

  /** `getTotalPriceWithPerishableDiscount`. */
  function PriceWithPerishableDiscount(inv: seq<Record>, today: LocalDate): Cents {
    SetScale2(DecimalSum(Values(inv, today)))
  }

  /** The discounted total is the exact sum of the entries' values. */
  lemma {:induction false} PriceWithPerishableDiscountExact(inv: seq<Record>, today: LocalDate)
    ensures PriceWithPerishableDiscount(inv, today) == SumValues(inv, today)
  {
    DecimalSumOfCents(Values(inv, today));
    ValuesSum(inv, today);
  }

  lemma {:induction false} ValuesSum(inv: seq<Record>, today: LocalDate)
    ensures SumUnscaled(Values(inv, today)) == SumValues(inv, today)
  {
    if |inv| > 0 {
      var init := inv[..|inv| - 1];
      ValuesSum(init, today);
      assert Values(inv, today)[..|inv| - 1] == Values(init, today);
    }
  }

  /** The store-wide 15% off: `multiply(BigDecimal.valueOf(0.85))`, HALF_UP. */
  function StoreWideDiscount(w: Cents): Cents {
    SetScale2(Mul(FromCents(w), Decimal(85, 2)))
  }

  /** `getTotalNetPriceWithDiscount`. */
  function NetPriceWithDiscount(inv: seq<Record>, today: LocalDate): Cents {
    StoreWideDiscount(PriceWithPerishableDiscount(inv, today))
  }

  lemma StoreWideDiscountExact(w: Cents)
    ensures StoreWideDiscount(w) == RoundHalfUp(w * 85, 100)
  {
    assert Pow10(2) == 100 && Pow10(4) == 10000;
  }

  /** 85% of a non-negative amount never exceeds it; from 0.04 on it is
      strictly smaller; at 0.01 to 0.03 HALF_UP rounds it back up to the
      amount itself. */
  lemma StoreWideDiscountBounds(w: Cents)
    ensures w >= 0 ==> 0 <= StoreWideDiscount(w) <= w
    ensures w >= 4 ==> StoreWideDiscount(w) < w
    ensures 1 <= w <= 3 ==> StoreWideDiscount(w) == w
  {
    StoreWideDiscountExact(w);
  }

  /** With every entry sensible, the net price is at most the discounted
      total, which is at most the gross price. */
  lemma {:induction false} AggregatesOrdered(inv: seq<Record>, today: LocalDate)
    requires forall i :: 0 <= i < |inv| ==> inv[i].price >= 0 && inv[i].quantity >= 0 && 0 <= inv[i].discount <= 100
    ensures 0 <= NetPriceWithDiscount(inv, today) <= PriceWithPerishableDiscount(inv, today) <= GrossPrice(inv)
  {
    PriceWithPerishableDiscountExact(inv, today);
    GrossPriceExact(inv);
    ValuesBelowGross(inv, today);
    StoreWideDiscountBounds(PriceWithPerishableDiscount(inv, today));
  }

  lemma {:induction false} ValuesBelowGross(inv: seq<Record>, today: LocalDate)
    requires forall i :: 0 <= i < |inv| ==> inv[i].price >= 0 && inv[i].quantity >= 0 && 0 <= inv[i].discount <= 100
    ensures 0 <= SumValues(inv, today) <= SumGross(inv)
  {
    if |inv| > 0 {
      ValuesBelowGross(inv[..|inv| - 1], today);
      TotalValueBounds(inv[|inv| - 1], today);
    }
  }

  // ---------------------------------------------------------------------
  // Appending an entry
  // ---------------------------------------------------------------------

  /** Appending an entry adds its quantity (wrapping around), its price ×
      quantity and its value on `today`. */
  lemma AggregatesAppend(inv: seq<Record>, r: Record, today: LocalDate)
    ensures TotalQuantity(inv + [r]) == Wrap32(TotalQuantity(inv) + r.quantity)
    ensures GrossPrice(inv + [r]) == GrossPrice(inv) + r.price * r.quantity
    ensures PriceWithPerishableDiscount(inv + [r], today) == PriceWithPerishableDiscount(inv, today) + TotalValue(r, today)
  {
    QuantityAppend(inv, r);
    GrossAppend(inv, r);
    DiscountedAppend(inv, r, today);
  }

  lemma QuantityAppend(inv: seq<Record>, r: Record)
    ensures TotalQuantity(inv + [r]) == Wrap32(TotalQuantity(inv) + r.quantity)
  {
    assert (inv + [r])[..|inv|] == inv;
  }

  lemma GrossAppend(inv: seq<Record>, r: Record)
    ensures GrossPrice(inv + [r]) == GrossPrice(inv) + r.price * r.quantity
  {
    var inv' := inv + [r];
    assert inv'[..|inv'| - 1] == inv;
    assert SumGross(inv') == SumGross(inv) + r.price * r.quantity;
    GrossPriceExact(inv);
    GrossPriceExact(inv');
  }

  lemma DiscountedAppend(inv: seq<Record>, r: Record, today: LocalDate)
    ensures PriceWithPerishableDiscount(inv + [r], today) == PriceWithPerishableDiscount(inv, today) + TotalValue(r, today)
  {
    var inv' := inv + [r];
    assert inv'[..|inv'| - 1] == inv;
    assert SumValues(inv', today) == SumValues(inv, today) + TotalValue(r, today);
    PriceWithPerishableDiscountExact(inv, today);
    PriceWithPerishableDiscountExact(inv', today);
  }

  /** Two entries: the aggregates are the sums of the two entries' parts. */
  lemma TwoEntries(a: Record, b: Record, today: LocalDate)
    ensures GrossPrice([a, b]) == a.price * a.quantity + b.price * b.quantity
    ensures PriceWithPerishableDiscount([a, b], today) == TotalValue(a, today) + TotalValue(b, today)
  {
    GrossPriceExact([]);
    PriceWithPerishableDiscountExact([], today);
    assert [] + [a] == [a] && [a] + [b] == [a, b];
    GrossAppend([], a);
    GrossAppend([a], b);
    DiscountedAppend([], a, today);
    DiscountedAppend([a], b, today);
  }

  /** Milk at 3.00 × 4 expiring tomorrow is worth half: 6.00. */
  lemma MilkValue(today: LocalDate, tomorrow: LocalDate)
    requires NextDay(today) == Some(tomorrow)
    ensures TotalValue(Record("Milk", 300, 4, 0, Perishable(tomorrow)), today) == 600
  {
    EpochDayNext(today);
    BaseValueNoDiscount(300, 4);
    ProximityValueExact(1200, 1);
    RoundHalfUpExact(600, 10);
  }

  /** A sample catalog: 10.00 × 5 at 10% off, and 3.00 × 4 expiring tomorrow:
      gross 62.00, discounted 51.00, net 43.35. */
  lemma SampleCatalog(today: LocalDate, tomorrow: LocalDate)
    requires NextDay(today) == Some(tomorrow)
    ensures var inv := [Record("Widget", 1000, 5, 10, NonPerishable), Record("Milk", 300, 4, 0, Perishable(tomorrow))];
      GrossPrice(inv) == 6200 && PriceWithPerishableDiscount(inv, today) == 5100 &&
      NetPriceWithDiscount(inv, today) == 4335
  {
    var widget := Record("Widget", 1000, 5, 10, NonPerishable);
    var milk := Record("Milk", 300, 4, 0, Perishable(tomorrow));
    BaseValueExample();
    assert TotalValue(widget, today) == 4500;
    MilkValue(today, tomorrow);
    TwoEntries(widget, milk, today);
    StoreWideDiscountExact(5100);
    assert 5100 * 85 == 4335 * 100;
    RoundHalfUpExact(4335, 100);
  }

  /** 10.00 × 5 and 20.00 × 3 make 8 items; 10.00 × 2 and 20.00 × 3 gross 80.00. */
  lemma TwoProductTotals()
    ensures TotalQuantity([Record("Product1", 1000, 5, 0, NonPerishable), Record("Product2", 2000, 3, 0, NonPerishable)]) == 8
    ensures GrossPrice([Record("Product1", 1000, 2, 0, NonPerishable), Record("Product2", 2000, 3, 0, NonPerishable)]) == 8000
  {
    var a := [Record("Product1", 1000, 5, 0, NonPerishable), Record("Product2", 2000, 3, 0, NonPerishable)];
    assert a[..1][..0] == [];
    TotalQuantityIsWrappedSum(a);
    var b := [Record("Product1", 1000, 2, 0, NonPerishable), Record("Product2", 2000, 3, 0, NonPerishable)];
    assert b[..1][..0] == [];
    GrossPriceExact(b);
  }

  /** 10.00 × 2 at 10% off and 5.00 × 2 expiring in three days come to 25.00
      with the perishable discount, and the 15% store-wide discount brings
      that down to 21.25, strictly less. */
  lemma RegularAndPerishableNet(today: LocalDate, soon: LocalDate)
    requires DaysBetween(today, soon) == 3
    ensures var inv := [Record("Regular Item", 1000, 2, 10, NonPerishable), Record("Perishable Item", 500, 2, 0, Perishable(soon))];
      PriceWithPerishableDiscount(inv, today) == 2500 && NetPriceWithDiscount(inv, today) == 2125 &&
      NetPriceWithDiscount(inv, today) < PriceWithPerishableDiscount(inv, today)
  {
    var regular := Record("Regular Item", 1000, 2, 10, NonPerishable);
    var perishable := Record("Perishable Item", 500, 2, 0, Perishable(soon));
    BaseValueExact(1000, 2, 10);
    assert 1000 * 2 * (100 - 10) == 1800 * 100;
    RoundHalfUpExact(1800, 100);
    assert TotalValue(regular, today) == 1800;
    BaseValueNoDiscount(500, 2);
    ProximityValueExact(1000, 3);
    RoundHalfUpExact(700, 10);
    assert TotalValue(perishable, today) == 700;
    TwoEntries(regular, perishable, today);
    StoreWideDiscountExact(2500);
    assert 2500 * 85 == 2125 * 100;
    RoundHalfUpExact(2125, 100);
  }
}

/** The catalog entries and their valuation: `Product` (name, unit price,
    quantity, discount rate, all money at scale 2) and `PerishableProduct`
    (a `Product` with an expiration date whose value drops as the date
    approaches). */
module Products {
  import opened Wrappers
  import opened Text
  import opened Decimals
  import opened Dates

  /** Whether an entry is a `PerishableProduct`, and if so its expiration date. */
  datatype Kind = NonPerishable | Perishable(expiration: LocalDate)

  /** A catalog entry as a value: price and discount are hundredths
      (a discount of 10 is the rate 0.10). */
  datatype Record = Record(name: string, price: Cents, quantity: Int32, discount: Cents, kind: Kind)

  // ---------------------------------------------------------------------
  // Valuation
  // ---------------------------------------------------------------------

  /** `Product.getTotalValue`: total = price × quantity, minus total × discount,
      set to scale 2 HALF_UP. */
  function BaseValue(price: Cents, quantity: Int32, discount: Cents): Cents {
    var total := Mul(FromCents(price), Decimal(quantity, 0));
    var discountAmount := Mul(total, FromCents(discount));
    SetScale2(Sub(total, discountAmount))
  }

  /** The same value in plain integers: price × quantity × (1 − discount),
      rounded HALF_UP to hundredths. */
  lemma BaseValueExact(price: Cents, quantity: Int32, discount: Cents)
    ensures BaseValue(price, quantity, discount) == RoundHalfUp(price * quantity * (100 - discount), 100)
  {
    var total := Mul(FromCents(price), Decimal(quantity, 0));
    var diff := Sub(total, Mul(total, FromCents(discount)));
    assert Pow10(2) == 100 && Pow10(4) == 10000;
    assert diff == Decimal(price * quantity * (100 - discount), 4);
  }

  /** Without a discount the value is price × quantity exactly. */
  lemma BaseValueNoDiscount(price: Cents, quantity: Int32)
    ensures BaseValue(price, quantity, 0) == price * quantity
  {
    BaseValueExact(price, quantity, 0);
    RoundHalfUpExact(price * quantity, 100);
    assert price * quantity * (100 - 0) == (price * quantity) * 100;
  }

  /** With a non-negative price and quantity and a rate in [0, 1], the
      discounted value lies between 0 and price × quantity. */
  lemma BaseValueBounds(price: Cents, quantity: Int32, discount: Cents)
    requires price >= 0 && quantity >= 0 && 0 <= discount <= 100
    ensures 0 <= BaseValue(price, quantity, discount) <= price * quantity
  {
    BaseValueExact(price, quantity, discount);
    var pq := price * quantity;
    MulNonNegative(price, quantity);
    var n := price * quantity * (100 - discount);
    ScaleByRate(pq, 100 - discount);
    var r := RoundHalfUp(n, 100);
    assert 200 * r <= 2 * n + 100;
  }

  lemma MulNonNegative(a: int, b: int)
    requires a >= 0 && b >= 0
    ensures a * b >= 0
  {
  }

  lemma ScaleByRate(a: int, k: int)
    requires a >= 0 && 0 <= k <= 100
    ensures 0 <= a * k <= a * 100
  {
    assert a * 100 - a * k == a * (100 - k);
    MulNonNegative(a, 100 - k);
  }

  /** 10.00 × 5 at 10% off is 45.00. */
  lemma BaseValueExample()
    ensures BaseValue(1000, 5, 10) == 4500
  {
    BaseValueExact(1000, 5, 10);
    assert 1000 * 5 * (100 - 10) == 4500 * 100;
    RoundHalfUpExact(4500, 100);
  }

  /** `PerishableProduct.getTotalValue` given the days until expiration:
      ×0.5 within 0..2 days, ×0.7 within 3..7, ×0.2 once expired, each set
      to scale 2 HALF_UP; unchanged further out. */
  function ProximityValue(base: Cents, days: int): Cents {
    if 0 <= days <= 2 then SetScale2(Mul(FromCents(base), Decimal(5, 1)))
    else if 2 < days <= 7 then SetScale2(Mul(FromCents(base), Decimal(7, 1)))
    else if days < 0 then SetScale2(Mul(FromCents(base), Decimal(2, 1)))
    else base
  }

  /** The multiplier in tenths that the proximity rule applies for `days`. */
  function ProximityTenths(days: int): int {
    if 0 <= days <= 2 then 5 else if 2 < days <= 7 then 7 else if days < 0 then 2 else 10
  }

  /** The proximity rule as one integer rounding: base × tenths / 10, HALF_UP. */
  lemma ProximityValueExact(base: Cents, days: int)
    ensures ProximityValue(base, days) == RoundHalfUp(base * ProximityTenths(days), 10)
  {
    assert Pow10(1) == 10 && Pow10(3) == 1000;
    if days > 7 {
      RoundHalfUpExact(base, 10);
      assert base * 10 == base * ProximityTenths(days);
    }
  }

  /** The boundaries of the rule: day 2 is still ×0.5, days 3 and 7 are ×0.7,
      day 8 is full value, and day −1 is ×0.2. */
  lemma ProximityBoundaries()
    ensures ProximityTenths(2) == 5 && ProximityTenths(3) == 7 && ProximityTenths(7) == 7
    ensures ProximityTenths(8) == 10 && ProximityTenths(-1) == 2 && ProximityTenths(0) == 5
  {
  }

  /** The proximity rule never raises a non-negative value and never makes it negative. */
  lemma ProximityValueBounds(base: Cents, days: int)
    requires base >= 0
    ensures 0 <= ProximityValue(base, days) <= base
  {
    ProximityValueExact(base, days);
    var k := ProximityTenths(days);
    var r := RoundHalfUp(base * k, 10);
    assert 2 <= k <= 10;
    assert base * k <= base * 10;
    assert -10 <= 2 * (base * k - r * 10);
  }

  /** The value of an entry on the day `today`. The proximity factor applies
      to the already-discounted `Product` value, so the two discounts compose
      by multiplying. */
  function TotalValue(r: Record, today: LocalDate): Cents {
    var base := BaseValue(r.price, r.quantity, r.discount);
    match r.kind
    case NonPerishable => base
    case Perishable(expiration) => ProximityValue(base, DaysBetween(today, expiration))
  }

  /** The value of an entry in plain integers. */
  lemma TotalValueExact(r: Record, today: LocalDate)
    ensures r.kind.NonPerishable? ==>
      TotalValue(r, today) == RoundHalfUp(r.price * r.quantity * (100 - r.discount), 100)
    ensures r.kind.Perishable? ==>
      TotalValue(r, today) == RoundHalfUp(RoundHalfUp(r.price * r.quantity * (100 - r.discount), 100) *
                                          ProximityTenths(DaysBetween(today, r.kind.expiration)), 10)
  {
    BaseValueExact(r.price, r.quantity, r.discount);
    if r.kind.Perishable? {
      ProximityValueExact(BaseValue(r.price, r.quantity, r.discount), DaysBetween(today, r.kind.expiration));
    }
  }

  /** For sensible fields a perishable entry is worth at most what the same
      non-perishable entry is worth, and never less than 0. */
  lemma TotalValueBounds(r: Record, today: LocalDate)
    requires r.price >= 0 && r.quantity >= 0 && 0 <= r.discount <= 100
    ensures 0 <= TotalValue(r, today) <= BaseValue(r.price, r.quantity, r.discount) <= r.price * r.quantity
  {
    BaseValueBounds(r.price, r.quantity, r.discount);
    if r.kind.Perishable? {
      ProximityValueBounds(BaseValue(r.price, r.quantity, r.discount), DaysBetween(today, r.kind.expiration));
    }
  }

  /** 3.00 × 4 with no discount, expiring the day after tomorrow, is worth
      6.00, below its full 12.00. */
  lemma PerishableTwoDaysExample(today: LocalDate, tomorrow: LocalDate, after: LocalDate)
    requires NextDay(today) == Some(tomorrow) && NextDay(tomorrow) == Some(after)
    ensures TotalValue(Record("Milk", 300, 4, 0, Perishable(after)), today) == 600 < 1200
  {
    EpochDayNext(today);
    EpochDayNext(tomorrow);
    BaseValueNoDiscount(300, 4);
    ProximityValueExact(1200, 2);
    RoundHalfUpExact(600, 10);
  }

  /** 10.00 × 2 with no discount, expiring tomorrow, is worth 10.00 (one
      day away, so ×0.5), not the 16.00 a ×0.8 rule would give. */
  lemma PerishableTomorrowIsHalf(today: LocalDate, tomorrow: LocalDate)
    requires NextDay(today) == Some(tomorrow)
    ensures TotalValue(Record("Milk", 1000, 2, 0, Perishable(tomorrow)), today) == 1000 != 1600
  {
    EpochDayNext(today);
    BaseValueNoDiscount(1000, 2);
    ProximityValueExact(2000, 1);
    RoundHalfUpExact(1000, 10);
  }

  // ---------------------------------------------------------------------
  // The mutable objects
  // ---------------------------------------------------------------------

  /** A `Product` object. The `double` overloads of the constructor and the
      setters are modelled by their exact decimal argument. */
  class Product {
    var name: string
    var price: Cents
    var quantity: Int32
    var discount: Cents

    /** Price and discount are stored at scale 2, rounded HALF_UP. */
    constructor(name: string, price: Decimal, quantity: Int32, discount: Decimal)
      ensures this.name == name && this.quantity == quantity
      ensures this.price == SetScale2(price) && this.discount == SetScale2(discount)
    {
      this.name := name;
      this.price := SetScale2(price);
      this.quantity := quantity;
      this.discount := SetScale2(discount);
    }

    function AsRecord(): Record
      reads this
    {
      Record(name, price, quantity, discount, NonPerishable)
    }

    /** `getTotalValue()`: price × quantity × (1 − discount), rounded HALF_UP
        to hundredths. */
    function GetTotalValue(): (r: Cents)
      reads this
      ensures r == RoundHalfUp(price * quantity * (100 - discount), 100)
      ensures price >= 0 && quantity >= 0 && 0 <= discount <= 100 ==> 0 <= r <= price * quantity
      ensures discount == 0 ==> r == price * quantity
    {
      BaseValueExact(price, quantity, discount);
      BaseValueNoDiscount(price, quantity);
      if price >= 0 && quantity >= 0 && 0 <= discount <= 100 then
        BaseValueBounds(price, quantity, discount);
        BaseValue(price, quantity, discount)
      else
        BaseValue(price, quantity, discount)
    }

    method SetName(name: string)
      modifies this
      ensures this.name == name
      ensures price == old(price) && quantity == old(quantity) && discount == old(discount)
    {
      this.name := name;
    }

    /** `setPrice(BigDecimal)`: stored at scale 2, HALF_UP. */
    method SetPrice(price: Decimal)
      modifies this
      ensures this.price == SetScale2(price)
      ensures name == old(name) && quantity == old(quantity) && discount == old(discount)
    {
      this.price := SetScale2(price);
    }

    method SetQuantity(quantity: Int32)
      modifies this
      ensures this.quantity == quantity
      ensures name == old(name) && price == old(price) && discount == old(discount)
    {
      this.quantity := quantity;
    }

    /** `setDiscount(BigDecimal)`: stored at scale 2, HALF_UP. */
    method SetDiscount(discount: Decimal)
      modifies this
      ensures this.discount == SetScale2(discount)
      ensures name == old(name) && price == old(price) && quantity == old(quantity)
    {
      this.discount := SetScale2(discount);
    }
  }

  /** `setPrice(getPrice())` and `setDiscount(getDiscount())` change nothing. */
  method ReapplyPriceAndDiscount(p: Product)
    modifies p
    ensures p.name == old(p.name) && p.price == old(p.price)
    ensures p.quantity == old(p.quantity) && p.discount == old(p.discount)
  {
    SetScale2Idempotent(p.price);
    p.SetPrice(FromCents(p.price));
    SetScale2Idempotent(p.discount);
    p.SetDiscount(FromCents(p.discount));
  }

  /** A `PerishableProduct` object: its `Product` part and its expiration date. */
  class PerishableProduct {
    const product: Product
    var expirationDate: LocalDate

    /** The constructor parses its date text; a text that does not parse
        throws before an object exists, which `ParseIsoDate` returning None
        stands for, so this constructor takes the parsed date. */
    constructor(name: string, price: Decimal, quantity: Int32, expirationDate: LocalDate, discount: Decimal)
      ensures fresh(product)
      ensures product.name == name && product.quantity == quantity
      ensures product.price == SetScale2(price) && product.discount == SetScale2(discount)
      ensures this.expirationDate == expirationDate
    {
      product := new Product(name, price, quantity, discount);
      this.expirationDate := expirationDate;
    }

    function AsRecord(): Record
      reads this, product
    {
      Record(product.name, product.price, product.quantity, product.discount, Perishable(expirationDate))
    }

    /** `getTotalValue()` on the day `today`. */
    function GetTotalValue(today: LocalDate): (r: Cents)
      reads this, product
      ensures r == ProximityValue(product.GetTotalValue(), DaysBetween(today, expirationDate))
      ensures product.price >= 0 && product.quantity >= 0 && 0 <= product.discount <= 100 ==>
        0 <= r <= product.GetTotalValue()
    {
      var base := product.GetTotalValue();
      if base >= 0 then
        ProximityValueBounds(base, DaysBetween(today, expirationDate));
        TotalValue(AsRecord(), today)
      else
        TotalValue(AsRecord(), today)
    }

    /** `setExpirationDate(LocalDate)` stores its argument unchanged. */
    method SetExpirationDate(expirationDate: LocalDate)
      modifies this
      ensures this.expirationDate == expirationDate
    {
      this.expirationDate := expirationDate;
    }

    /** `setExpirationDate(String)`: a text that parses is stored; otherwise
        the `DateTimeParseException` (ok == false) leaves the date as it was. */
    method SetExpirationDateText(text: string) returns (ok: bool)
      modifies this
      ensures ok <==> ParseIsoDate(text).Some?
      ensures ok ==> expirationDate == ParseIsoDate(text).value
      ensures !ok ==> expirationDate == old(expirationDate)
    {
      match ParseIsoDate(text)
      case None => ok := false;
      case Some(d) => expirationDate := d; ok := true;
    }
  }
}

/** Pricing one item (the second loop of `procesar_excel`): the unit cost,
    the rule it is priced with, packaging per kilogram, the Lima price and the
    provincial prices with freight, all rounded as Python's `round` does. */
module Pricing {
  import opened Strings
  import opened Collections
  import opened SizeParser
  import opened BaseNames
  import opened Rules
  import opened Overrides
  import opened CostTable

  /** `FLETE_NORMAL` and `FLETE_PELIGROSO`, per kilogram. */
  const FreightNormal: real := 0.08
  const FreightHazardous: real := 0.11

  /** `COSTO_ENVASE_STD_1KG` and `COSTO_ENVASE_STD_5KG`, per package. */
  const Pack1Kg: real := 0.15
  const Pack5Kg: real := 0.40

  // ---- round(x, n): to the nearest multiple of 1/scale, ties to even ----

  /** The nearest integer to `y`, ties going to the even one. */
  function RoundHalfEven(y: real): (k: int)
    ensures -0.5 <= k as real - y <= 0.5
    ensures (k as real - y == 0.5 || y - k as real == 0.5) ==> k % 2 == 0
  {
    var n := y.Floor;
    var f := y - n as real;
    if f < 0.5 then n
    else if f > 0.5 then n + 1
    else if n % 2 == 0 then n
    else n + 1
  }

  /** `round(x, 2)`: a whole number of cents within half a cent of `x`. */
  function Cents(x: real): (r: real)
    ensures (r * 100.0).Floor as real == r * 100.0
    ensures -0.005 <= r - x <= 0.005
  {
    var k := RoundHalfEven(x * 100.0);
    assert (k as real).Floor == k;
    k as real / 100.0
  }

  /** `round(x, 1)`: a whole number of tenths within half a tenth of `x`. */
  function Tenths(x: real): (r: real)
    ensures (r * 10.0).Floor as real == r * 10.0
    ensures -0.05 <= r - x <= 0.05
  {
    var k := RoundHalfEven(x * 10.0);
    assert (k as real).Floor == k;
    k as real / 10.0
  }

  /** Rounding a whole number leaves it alone. */
  lemma RoundWhole(y: real)
    requires y.Floor as real == y
    ensures RoundHalfEven(y) == y.Floor
  {
  }

  /** Rounding to cents twice is rounding once. */
  lemma CentsIdempotent(x: real)
    ensures Cents(Cents(x)) == Cents(x)
  {
    RoundWhole(Cents(x) * 100.0);
  }

  // ---- The pieces of a price ----

  /** The cost of one package: the rule's extra packaging cost when it has
      one, else the standard 1 kg or 5 kg container, else nothing. */
  function PackageCost(rule: Rule, kg: real): real {
    if rule.packaging > 0.0 then rule.packaging
    else if kg == 1.0 then Pack1Kg
    else if kg == 5.0 then Pack5Kg
    else 0.0
  }

  /** Packaging cost per kilogram; `None` where the source divides by a zero size. */
  function PackagingPerKg(rule: Rule, kg: real): (r: Option<real>)
    ensures r.None? <==> rule.packaging > 0.0 && kg == 0.0
    ensures r.Some? ==> r.value * kg == PackageCost(rule, kg)
    ensures r.Some? && kg > 0.0 && PackageCost(rule, kg) >= 0.0 ==> r.value >= 0.0
    ensures r.Some? && kg == 0.0 ==> r.value == 0.0
  {
    if rule.packaging > 0.0 then
      if kg == 0.0 then None else Some(rule.packaging / kg)
    else if kg == 1.0 then Some(Pack1Kg / 1.0)
    else if kg == 5.0 then Some(Pack5Kg / 5.0)
    else Some(0.0)
  }

  /** Freight per kilogram to the provinces: none unless the rule charges it,
      and the hazardous rate for acids and ammonia. */
  function Freight(rule: Rule, hazardous: bool): (f: real)
    ensures f >= 0.0
    ensures f == 0.0 <==> !rule.chargeFreight
    ensures rule.chargeFreight ==> (f == FreightHazardous <==> hazardous)
    ensures rule.chargeFreight && hazardous ==> f == FreightHazardous
    ensures rule.chargeFreight && !hazardous ==> f == FreightNormal
  {
    if rule.chargeFreight then (if hazardous then FreightHazardous else FreightNormal) else 0.0
  }

  /** The unit cost an item is priced at: its own cost when above the floor,
      else the master price of its base name; `None` (the item is dropped)
      when it has neither. */
  function UnitCost(item: Item, masters: map<string, real>): (c: Option<real>)
    ensures item.cost > PriceFloor ==> c == Some(item.cost)
    ensures item.cost <= PriceFloor ==>
              var b := BaseName(Upper(item.name));
              (c.Some? <==> b in masters) && (c.Some? ==> c.value == masters[b])
    ensures (forall b :: b in masters ==> masters[b] > PriceFloor) && c.Some? ==> c.value > PriceFloor
  {
    if item.cost <= PriceFloor then
      var b := BaseName(Upper(item.name));
      if b in masters then Some(masters[b]) else None
    else Some(item.cost)
  }

  /** The rule an item is priced with: its rules row looked up by the
      upper-cased name (or the default rule), with the margin replaced by the
      manual override for the exact name when there is one. */
  function RuleFor(rules: map<string, Rule>, db: Edits, item: Item): (rule: Rule)
    ensures var base := if Upper(item.name) in rules then rules[Upper(item.name)] else DefaultRule;
            && rule.packaging == base.packaging && rule.chargeFreight == base.chargeFreight
            && rule.margin == MarginOverride(db, item.name).GetOr(base.margin)
  {
    var base := if Upper(item.name) in rules then rules[Upper(item.name)] else DefaultRule;
    match MarginOverride(db, item.name)
    case Some(m) => base.(margin := m)
    case None => base
  }

  /** The margin editor reaches pricing: after a margin is stored for an
      item's full name, the item is priced with that margin and its rule is
      otherwise unchanged, and items with any other name are priced as
      before. */
  lemma EditedMarginPrices(rules: map<string, Rule>, db: Edits, item: Item, percent: real, other: Item)
    requires other.name != item.name
    ensures RuleFor(rules, EditMargin(db, item.name, percent), item) == RuleFor(rules, db, item).(margin := percent / 100.0)
    ensures RuleFor(rules, EditMargin(db, item.name, percent), other) == RuleFor(rules, db, other)
  {
    EditThenOverride(db, item.name, percent, other.name);
  }

  /** One line of the price list. */
  datatype Product = Product(
    name: string, category: string, brand: string, code: string, unitType: string,
    marginPercent: real, priceLima: real, priceAqp: real, priceTru: real, kg: real, freightStatus: string)

  /** What pricing one item gives: it is dropped, it divides by zero (which
      aborts the whole list), or it yields a product. */
  datatype Outcome = Dropped | DivideByZero | Line(product: Product)

  /** The Lima price before rounding: cost plus packaging, plus the margin. */
  function LimaPrice(cost: real, perKg: real, margin: real): real {
    (cost + perKg) * (1.0 + margin)
  }

  function ResolveRow(rules: map<string, Rule>, db: Edits, masters: map<string, real>, item: Item): Outcome {
    match UnitCost(item, masters)
    case None => Dropped
    case Some(cost) =>
      var rule := RuleFor(rules, db, item);
      match PackagingPerKg(rule, item.kg)
      case None => DivideByZero
      case Some(perKg) =>
        var lima := LimaPrice(cost, perKg, rule.margin);
        var province := lima + Freight(rule, IsHazardous(item.name));
        Line(Product(
          item.name, item.category, item.brand, item.code, item.unitType,
          Tenths(rule.margin * 100.0), Cents(lima), Cents(province), Cents(province), item.kg,
          if rule.chargeFreight then "SI" else "NO"))
  }

  /** A priced line keeps the item's descriptive fields; its Lima price is
      the rounded cost-plus-packaging-plus-margin, the two provincial prices
      are equal and lie within a cent of the Lima price plus freight, and the
      freight status says whether freight was charged. */
  lemma ResolveRowSpec(rules: map<string, Rule>, db: Edits, masters: map<string, real>, item: Item)
    requires ResolveRow(rules, db, masters, item).Line?
    ensures var p := ResolveRow(rules, db, masters, item).product;
            var rule := RuleFor(rules, db, item);
            var cost := UnitCost(item, masters).value;
            var perKg := PackagingPerKg(rule, item.kg).value;
            var freight := Freight(rule, IsHazardous(item.name));
            && UnitCost(item, masters).Some? && PackagingPerKg(rule, item.kg).Some?
            && p.name == item.name && p.category == item.category && p.brand == item.brand
            && p.code == item.code && p.unitType == item.unitType && p.kg == item.kg
            && (p.priceLima * 100.0).Floor as real == p.priceLima * 100.0
            && -0.005 <= p.priceLima - LimaPrice(cost, perKg, rule.margin) <= 0.005
            && p.priceAqp == p.priceTru
            && (p.priceAqp * 100.0).Floor as real == p.priceAqp * 100.0
            && -0.005 <= p.priceAqp - (LimaPrice(cost, perKg, rule.margin) + freight) <= 0.005
            && -0.01 <= p.priceAqp - (p.priceLima + freight) <= 0.01
            && (p.marginPercent * 10.0).Floor as real == p.marginPercent * 10.0
            && -0.05 <= p.marginPercent - rule.margin * 100.0 <= 0.05
            && (p.freightStatus == "SI" <==> rule.chargeFreight)
  {
  }

  /** An item with a usable cost fails exactly when its rule has an extra
      packaging cost and its size reads as zero kilograms. */
  lemma DivideByZeroExactly(rules: map<string, Rule>, db: Edits, masters: map<string, real>, item: Item)
    ensures ResolveRow(rules, db, masters, item).DivideByZero? <==>
              UnitCost(item, masters).Some? && RuleFor(rules, db, item).packaging > 0.0 && item.kg == 0.0
    ensures ResolveRow(rules, db, masters, item).Dropped? <==> UnitCost(item, masters).None?
  {
  }

  // ---- A worked example ----

  /** An acid in a 5 kg container at cost 10.00 with no rules row: packaging
      0.08/kg, Lima price 12.10, and the hazardous freight gives 12.21. */
  lemma HazardousFiveKgExample(item: Item)
    requires item.name == "ACIDO SULFURICO 5KG" && item.cost == 10.0 && item.kg == 5.0
    ensures var out := ResolveRow(map[], map[], map[], item);
            && out.Line?
            && out.product.priceLima == 12.10
            && out.product.priceAqp == 12.21 && out.product.priceTru == 12.21
            && out.product.marginPercent == 20.0
            && out.product.freightStatus == "SI"
  {
    var u := Upper(item.name);
    assert u == item.name;
    assert OccursAt(u, "SULFURICO", 6);
    assert "SULFURICO" in HazardWords && Contains(Upper(item.name), "SULFURICO");
    assert IsHazardous(item.name);
    assert RoundHalfEven(1209.6) == 1210;
    assert RoundHalfEven(1220.6) == 1221;
    assert RoundHalfEven(200.0) == 200;
  }
}

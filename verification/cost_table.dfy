/** The cost sheet exported from the ERP: finding its header row
    (`cargar_df_seguro`), picking its columns, turning its rows into items
    and collecting a master price per base name (the first half of
    `procesar_excel`). */
module CostTable {
  import opened Strings
  import opened Collections
  import opened Sheets
  import opened SizeParser
  import opened BaseNames
  import opened Rules

  // ---- The header row ----

  /** The lower-cased text of the cells of `row` that are not blank. */
  function PresentTexts(row: seq<Cell>): (ts: seq<string>)
    decreases |row|
  {
    if |row| == 0 then []
    else (if NotNa(row[0]) then [Lower(Str(row[0]))] else []) + PresentTexts(row[1..])
  }

  lemma {:induction false} PresentTextsAre(row: seq<Cell>, w: string)
    ensures (exists k :: 0 <= k < |PresentTexts(row)| && Contains(PresentTexts(row)[k], w))
        <==> (exists j :: 0 <= j < |row| && NotNa(row[j]) && Contains(Lower(Str(row[j])), w))
    decreases |row|
  {
    if |row| > 0 {
      var ts := PresentTexts(row);
      var head := if NotNa(row[0]) then [Lower(Str(row[0]))] else [];
      var rest := PresentTexts(row[1..]);
      assert ts == head + rest;
      PresentTextsAre(row[1..], w);
      if exists k :: 0 <= k < |ts| && Contains(ts[k], w) {
        var k :| 0 <= k < |ts| && Contains(ts[k], w);
        if k >= |head| {
          assert rest[k - |head|] == ts[k];
          var j :| 0 <= j < |row[1..]| && NotNa(row[1..][j]) && Contains(Lower(Str(row[1..][j])), w);
          assert row[1 + j] == row[1..][j];
        }
      }
      if exists j :: 0 <= j < |row| && NotNa(row[j]) && Contains(Lower(Str(row[j])), w) {
        var j :| 0 <= j < |row| && NotNa(row[j]) && Contains(Lower(Str(row[j])), w);
        if j == 0 {
          assert ts[0] == Lower(Str(row[0]));
        } else {
          assert row[1..][j - 1] == row[j];
          var k :| 0 <= k < |rest| && Contains(rest[k], w);
          assert ts[|head| + k] == rest[k];
        }
      }
    }
  }

  /** `' '.join(str(x).lower() for x in row.values if pd.notna(x))`. */
  function RowText(row: seq<Cell>): string {
    Join(PresentTexts(row))
  }

  /** The header test on a row's joined text. */
  predicate HeaderText(t: string) {
    && (Contains(t, "producto") || Contains(t, "name"))
    && (Contains(t, "c/u") || Contains(t, "cost") || Contains(t, "precio"))
  }

  predicate IsHeaderRow(row: seq<Cell>) {
    HeaderText(RowText(row))
  }

  /** Some non-blank cell of `row` contains `w` once lower-cased. */
  predicate SomeCellHas(row: seq<Cell>, w: string) {
    exists j :: 0 <= j < |row| && NotNa(row[j]) && Contains(Lower(Str(row[j])), w)
  }

  lemma RowTextHas(row: seq<Cell>, w: string)
    requires |w| > 0 && NoSpace(w)
    ensures Contains(RowText(row), w) <==> SomeCellHas(row, w)
  {
    var ts := PresentTexts(row);
    JoinContains(ts, w);
    PresentTextsAre(row, w);
    assert Contains(RowText(row), w) <==> exists k :: 0 <= k < |ts| && Contains(ts[k], w);
  }

  /** Joining the cells cannot make or break a keyword, so the header test
      is a test on cells: some cell names the product column and some cell
      (possibly the same one) names a cost or price column. */
  lemma HeaderRowByCells(row: seq<Cell>)
    ensures IsHeaderRow(row) <==>
              && (SomeCellHas(row, "producto") || SomeCellHas(row, "name"))
              && (SomeCellHas(row, "c/u") || SomeCellHas(row, "cost") || SomeCellHas(row, "precio"))
  {
    RowTextHas(row, "producto");
    RowTextHas(row, "name");
    RowTextHas(row, "c/u");
    RowTextHas(row, "cost");
    RowTextHas(row, "precio");
  }

  /** The header row: the first row passing the header test, or row 0 when none does. */
  function HeaderRowIndex(raw: seq<seq<Cell>>): (k: nat)
    ensures (exists i :: 0 <= i < |raw| && IsHeaderRow(raw[i])) ==>
              k < |raw| && IsHeaderRow(raw[k]) && forall i :: 0 <= i < k ==> !IsHeaderRow(raw[i])
    ensures (forall i :: 0 <= i < |raw| ==> !IsHeaderRow(raw[i])) ==> k == 0
  {
    match FirstWhere(raw, IsHeaderRow)
    case Some(i) => i
    case None => 0
  }

  /** The sheet read back with that row as its header. */
  function CostSheet(raw: seq<seq<Cell>>): Table {
    TableAt(raw, HeaderRowIndex(raw))
  }

  // ---- The columns ----

  predicate IsExactNameColumn(n: string) {
    n == "producto" || n == "nombre" || n == "name"
  }

  predicate IsLooseNameColumn(n: string) {
    Contains(n, "producto") && !Contains(n, "categor") && !Contains(n, "cod")
  }

  predicate IsCostColumn(n: string) {
    Contains(n, "c/u") || Contains(n, "usd") || Contains(n, "$") || Contains(n, "cost") || Contains(n, "unit")
  }

  predicate IsCategoryColumn(n: string) {
    Contains(n, "categor")
  }

  predicate IsBrandColumn(n: string) {
    Contains(n, "marca")
  }

  predicate IsCodeColumn(n: string) {
    Contains(n, "codigo") || Contains(n, "código")
  }

  predicate IsUnitColumn(n: string) {
    Contains(n, "unidad")
  }

  /** Positions of the columns an item is read from. */
  datatype CostColumns = CostColumns(
    name: nat, cost: nat, category: Option<nat>, brand: Option<nat>, code: Option<nat>, unit: Option<nat>)

  /** The name column: the first exactly named one, else the first whose
      label mentions `producto` but is neither a category nor a code. */
  function NameColumn(names: seq<string>): Option<nat> {
    match FirstWhere(names, IsExactNameColumn)
    case Some(j) => Some(j)
    case None => FirstWhere(names, IsLooseNameColumn)
  }

  /** The columns of a cost sheet, or `None` (no list at all) when it has no
      name column or no cost column. */
  function FindCostColumns(names: seq<string>): (c: Option<CostColumns>)
    ensures c.None? <==> NameColumn(names).None? || FirstWhere(names, IsCostColumn).None?
    ensures c.Some? ==>
              && c.value.cost < |names| && IsCostColumn(names[c.value.cost])
              && (forall j :: 0 <= j < c.value.cost ==> !IsCostColumn(names[j]))
    ensures c.Some? && (exists j :: 0 <= j < |names| && IsExactNameColumn(names[j])) ==>
              && c.value.name < |names| && IsExactNameColumn(names[c.value.name])
              && (forall j :: 0 <= j < c.value.name ==> !IsExactNameColumn(names[j]))
    ensures c.Some? && (forall j :: 0 <= j < |names| ==> !IsExactNameColumn(names[j])) ==>
              && c.value.name < |names| && IsLooseNameColumn(names[c.value.name])
              && (forall j :: 0 <= j < c.value.name ==> !IsLooseNameColumn(names[j]))
    ensures c.Some? ==>
              && IsFirstMatch(names, IsCategoryColumn, c.value.category)
              && IsFirstMatch(names, IsBrandColumn, c.value.brand)
              && IsFirstMatch(names, IsCodeColumn, c.value.code)
              && IsFirstMatch(names, IsUnitColumn, c.value.unit)
  {
    match (NameColumn(names), FirstWhere(names, IsCostColumn))
    case (Some(n), Some(k)) =>
      Some(CostColumns(
        n, k,
        FirstWhere(names, IsCategoryColumn),
        FirstWhere(names, IsBrandColumn),
        FirstWhere(names, IsCodeColumn),
        FirstWhere(names, IsUnitColumn)))
    case _ => None
  }

  // ---- Items ----

  /** One product line of the cost sheet. */
  datatype Item = Item(
    name: string, category: string, brand: string, code: string, unitType: string, cost: real, kg: real)

  /** Costs at or below this count as missing. */
  const PriceFloor: real := 0.0001

  /** A manual cost from the rules is raised by 5% (`costo_manual * 1.05`). */
  const ManualUplift: real := 1.05

  /** The listed cost: the cell's number, or 0.0 when it has none. */
  function ListedCost(c: Cell): (cost: real)
    ensures Numeric(c).Some? ==> cost == Numeric(c).value
    ensures Numeric(c).None? ==> cost == 0.0 && cost <= PriceFloor
  {
    Numeric(c).GetOr(0.0)
  }

  /** A floating-point reading: a finite number or NaN. */
  datatype Float = Finite(value: real) | NaN

  /** The listed cost as the source computes it, `pd.to_numeric(x, errors='coerce') or 0.0`:
      `or` replaces only a zero (with zero), and NaN is truthy, so a cell
      without a number stays NaN. */
  function ListedCostAsWritten(c: Cell): Float {
    match Numeric(c)
    case Some(v) => Finite(if v == 0.0 then 0.0 else v)
    case None => NaN
  }

  /** `costo <= 0.0001` in floating point: false for NaN. */
  predicate AtMostFloor(f: Float) {
    f.Finite? && f.value <= PriceFloor
  }

  /** A blank cost cell: as written it reads as NaN, which the missing-cost
      test `costo <= 0.0001` does not catch, so the line would be priced NaN
      instead of at its master price; read as 0.0 it is caught. On a cell with
      a number both readings agree. */
  lemma BlankCostIsNaN(c: Cell)
    ensures ListedCostAsWritten(Blank) == NaN && !AtMostFloor(ListedCostAsWritten(Blank))
    ensures ListedCost(Blank) <= PriceFloor
    ensures Numeric(c).Some? ==> ListedCostAsWritten(c) == Finite(ListedCost(c))
  {
  }

  /** The corrected reading departs from the source's only where the
      source reads NaN: wherever the source reads a number, the two agree,
      and where it reads NaN the corrected cost is caught by the
      missing-cost test that NaN escapes. */
  lemma ListedCostRepairsNaN(c: Cell)
    ensures ListedCostAsWritten(c).Finite? ==> ListedCostAsWritten(c).value == ListedCost(c)
    ensures ListedCostAsWritten(c).NaN? ==> !AtMostFloor(ListedCostAsWritten(c)) && AtMostFloor(Finite(ListedCost(c)))
  {
  }

  /** The cost a rules row imposes on the upper-cased name, if any. */
  function ManualCost(rules: map<string, Rule>, upperName: string): (m: Option<real>)
    ensures m.Some? <==> upperName in rules && rules[upperName].manualCost > 0.0
    ensures m.Some? ==> m.value == rules[upperName].manualCost * ManualUplift && m.value > rules[upperName].manualCost
  {
    if upperName in rules && rules[upperName].manualCost > 0.0 then Some(rules[upperName].manualCost * ManualUplift) else None
  }

  /** An optional text column: the stripped cell, or `default` when the
      column is missing or the cell blank. */
  function TextOr(col: Option<nat>, row: seq<Cell>, default: string): (t: string)
    ensures col.None? ==> t == default
    ensures col.Some? && !NotNa(CellAt(row, col.value)) ==> t == default
    ensures col.Some? && NotNa(CellAt(row, col.value)) ==> t == Strip(Str(CellAt(row, col.value)))
  {
    if col.Some? && NotNa(CellAt(row, col.value)) then Strip(Str(CellAt(row, col.value))) else default
  }

  /** One row of the cost sheet as an item, or `None` for a row without a name. */
  function IngestRow(rules: map<string, Rule>, cols: CostColumns, row: seq<Cell>): Option<Item> {
    var name := Strip(Str(CellAt(row, cols.name)));
    if name == "nan" || |name| == 0 then None
    else
      var cost := match ManualCost(rules, Upper(name))
        case Some(m) => m
        case None => ListedCost(CellAt(row, cols.cost));
      Some(Item(
        name,
        Upper(TextOr(cols.category, row, "GENERAL")),
        Upper(TextOr(cols.brand, row, "GENERICO")),
        TextOr(cols.code, row, "S/C"),
        Upper(TextOr(cols.unit, row, "KG")),
        cost,
        DetectKg(name)))
  }

  /** A row is skipped exactly when its stripped name is empty or `nan`;
      otherwise its item carries the stripped name, the size read from it,
      upper-cased category, brand and unit, and the manual cost (with its
      uplift) when the rules give one, else the listed cost. */
  lemma IngestRowSpec(rules: map<string, Rule>, cols: CostColumns, row: seq<Cell>)
    ensures var name := Strip(Str(CellAt(row, cols.name)));
            IngestRow(rules, cols, row).None? <==> name == "nan" || |name| == 0
    ensures IngestRow(rules, cols, row).Some? ==>
              var it := IngestRow(rules, cols, row).value;
              && it.name == Strip(Str(CellAt(row, cols.name))) && |it.name| > 0
              && !IsSpace(it.name[0]) && !IsSpace(it.name[|it.name| - 1])
              && it.kg == DetectKg(it.name) && it.kg >= 0.0
              && NoLowerAscii(it.category) && NoLowerAscii(it.brand) && NoLowerAscii(it.unitType)
              && it.category == Upper(TextOr(cols.category, row, "GENERAL"))
              && it.brand == Upper(TextOr(cols.brand, row, "GENERICO"))
              && it.code == TextOr(cols.code, row, "S/C")
              && it.unitType == Upper(TextOr(cols.unit, row, "KG"))
              && (cols.category.None? ==> it.category == "GENERAL")
              && (cols.brand.None? ==> it.brand == "GENERICO")
              && (cols.code.None? ==> it.code == "S/C")
              && (cols.unit.None? ==> it.unitType == "KG")
              && (ManualCost(rules, Upper(it.name)).Some? ==> it.cost == ManualCost(rules, Upper(it.name)).value)
              && (ManualCost(rules, Upper(it.name)).None? ==> it.cost == ListedCost(CellAt(row, cols.cost)))
  {
    if IngestRow(rules, cols, row).Some? {
      var it := IngestRow(rules, cols, row).value;
      UpperHasNoLower(TextOr(cols.category, row, "GENERAL"));
      UpperHasNoLower(TextOr(cols.brand, row, "GENERICO"));
      UpperHasNoLower(TextOr(cols.unit, row, "KG"));
      DefaultTextsAreUpper();
    }
  }

  /** The default texts are already upper-case. */
  lemma DefaultTextsAreUpper()
    ensures Upper("GENERAL") == "GENERAL" && Upper("GENERICO") == "GENERICO" && Upper("KG") == "KG"
  {
    assert Upper("GENERAL") == "GENERAL";
    assert Upper("GENERICO") == "GENERICO";
    assert Upper("KG") == "KG";
  }

  function IngestWith(rules: map<string, Rule>, cols: CostColumns): seq<Cell> -> Option<Item> {
    row => IngestRow(rules, cols, row)
  }

  /** The item list: the rows that have a name, in sheet order. */
  function Ingest(rules: map<string, Rule>, cols: CostColumns, rows: seq<seq<Cell>>): (items: seq<Item>)
    ensures |items| <= |rows|
    ensures forall it :: it in items ==> exists i :: 0 <= i < |rows| && IngestRow(rules, cols, rows[i]) == Some(it)
    ensures forall i :: 0 <= i < |rows| && IngestRow(rules, cols, rows[i]).Some? ==> IngestRow(rules, cols, rows[i]).value in items
  {
    FilterMap(rows, IngestWith(rules, cols))
  }

  /** Items come in sheet order, one per row that has a name: the items of
      two stretches of rows are the items of the first then those of the
      second, and a single row gives its item or nothing. */
  lemma IngestInSheetOrder(rules: map<string, Rule>, cols: CostColumns, rows: seq<seq<Cell>>, more: seq<seq<Cell>>)
    ensures Ingest(rules, cols, rows + more) == Ingest(rules, cols, rows) + Ingest(rules, cols, more)
    ensures |rows| == 1 ==>
              Ingest(rules, cols, rows) == if IngestRow(rules, cols, rows[0]).Some? then [IngestRow(rules, cols, rows[0]).value] else []
  {
    FilterMapConcat(rows, more, IngestWith(rules, cols));
  }

  // ---- Master prices ----

  /** An item with a usable cost. */
  function Priced(): Item -> bool {
    (it: Item) => it.cost > PriceFloor
  }

  /** The base name an item's cost is filed under. */
  function BaseKey(): Item -> string {
    (it: Item) => BaseName(Upper(it.name))
  }

  function CostOf(): Item -> real {
    (it: Item) => it.cost
  }

  /** `precios_maestros`: base name to the cost of a priced item with that base name. */
  function MasterPrices(items: seq<Item>): map<string, real> {
    LastWins(items, Priced(), BaseKey(), CostOf())
  }

  /** Item `i` is the last priced item with its base name. */
  ghost predicate LastPricedWithBase(items: seq<Item>, i: int) {
    && 0 <= i < |items| && items[i].cost > PriceFloor
    && forall j :: i < j < |items| && items[j].cost > PriceFloor ==>
         BaseName(Upper(items[j].name)) != BaseName(Upper(items[i].name))
  }

  /** Every base name of a priced item has a master price, no other name has
      one, and the price is the cost of the LAST priced item with that base
      name; every master price is above the floor. */
  lemma MasterPricesSpec(items: seq<Item>)
    ensures MasterPrices(items).Keys == (set i | 0 <= i < |items| && items[i].cost > PriceFloor :: BaseName(Upper(items[i].name)))
    ensures forall i :: LastPricedWithBase(items, i) ==>
              var b := BaseName(Upper(items[i].name));
              b in MasterPrices(items) && MasterPrices(items)[b] == items[i].cost
    ensures forall b :: b in MasterPrices(items) ==> MasterPrices(items)[b] > PriceFloor
  {
    LastWinsSpec(items, Priced(), BaseKey(), CostOf());
    assert KeptKeys(items, Priced(), BaseKey())
        == (set i | 0 <= i < |items| && items[i].cost > PriceFloor :: BaseName(Upper(items[i].name)));
    forall i | LastPricedWithBase(items, i)
      ensures var b := BaseName(Upper(items[i].name));
              b in MasterPrices(items) && MasterPrices(items)[b] == items[i].cost
    {
      assert LastWithKey(items, Priced(), BaseKey(), i);
    }
    forall b | b in MasterPrices(items) ensures MasterPrices(items)[b] > PriceFloor {
      var i :| 0 <= i < |items| && items[i].cost > PriceFloor && BaseName(Upper(items[i].name)) == b;
      var last := LastPricedIndex(items, i);
      assert LastWithKey(items, Priced(), BaseKey(), last);
    }
  }

  /** The last priced item sharing item `i`'s base name. */
  lemma LastPricedIndex(items: seq<Item>, i: nat) returns (last: nat)
    requires i < |items| && items[i].cost > PriceFloor
    ensures LastPricedWithBase(items, last)
    ensures BaseName(Upper(items[last].name)) == BaseName(Upper(items[i].name))
    decreases |items| - i
  {
    var b := BaseName(Upper(items[i].name));
    if exists j :: i < j < |items| && items[j].cost > PriceFloor && BaseName(Upper(items[j].name)) == b {
      var j :| i < j < |items| && items[j].cost > PriceFloor && BaseName(Upper(items[j].name)) == b;
      last := LastPricedIndex(items, j);
    } else {
      last := i;
    }
  }
}

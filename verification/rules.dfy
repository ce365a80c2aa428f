/** The master rules sheet (`cargar_reglas_excel`): one row per product name
    with its margin, its extra packaging cost, whether freight is charged and
    a manual cost that replaces the listed one. */
module Rules {
  import opened Strings
  import opened Collections
  import opened Sheets

  /** `MARGEN_DEFECTO`. */
  const DefaultMargin: real := 0.20

  /** A rule: `margen`, `envase_extra`, `cobrar_flete` and `costo_manual`. */
  datatype Rule = Rule(margin: real, packaging: real, chargeFreight: bool, manualCost: real)

  /** The rule a product without a rules row is priced with. */
  const DefaultRule: Rule := Rule(DefaultMargin, 0.0, true, 0.0)

  // ---- Which column holds what: the first normalized label containing a keyword ----

  predicate IsProductColumn(n: string) {
    Contains(n, "prod") || Contains(n, "nombre")
  }

  predicate IsMarginColumn(n: string) {
    Contains(n, "margen")
  }

  predicate IsPackagingColumn(n: string) {
    Contains(n, "envase") || Contains(n, "extra")
  }

  predicate IsFreightColumn(n: string) {
    Contains(n, "flete") || Contains(n, "cobrar")
  }

  predicate IsManualColumn(n: string) {
    Contains(n, "manual") || Contains(n, "costo")
  }

  /** Positions of the columns the rules sheet is read from; `None` when absent. */
  datatype RuleColumns = RuleColumns(
    product: Option<nat>, margin: Option<nat>, packaging: Option<nat>, freight: Option<nat>, manual: Option<nat>)

  /** Each column is the first whose label passes its test, or absent when
      no label does. */
  function FindRuleColumns(names: seq<string>): (c: RuleColumns)
    ensures IsFirstMatch(names, IsProductColumn, c.product)
    ensures IsFirstMatch(names, IsMarginColumn, c.margin)
    ensures IsFirstMatch(names, IsPackagingColumn, c.packaging)
    ensures IsFirstMatch(names, IsFreightColumn, c.freight)
    ensures IsFirstMatch(names, IsManualColumn, c.manual)
  {
    RuleColumns(
      FirstWhere(names, IsProductColumn),
      FirstWhere(names, IsMarginColumn),
      FirstWhere(names, IsPackagingColumn),
      FirstWhere(names, IsFreightColumn),
      FirstWhere(names, IsManualColumn))
  }

  // ---- Reading one cell of a rules row ----

  /** The margin cell: a number above 1 is a percentage and is divided by 100,
      any other number is already a fraction, and a non-number leaves the default. */
  function CoerceMargin(c: Cell): (m: real)
    ensures Numeric(c).None? ==> m == DefaultMargin
    ensures Numeric(c).Some? && Numeric(c).value > 1.0 ==> m * 100.0 == Numeric(c).value
    ensures Numeric(c).Some? && Numeric(c).value <= 1.0 ==> m == Numeric(c).value
    ensures Numeric(c).Some? ==> (m <= 1.0 <==> Numeric(c).value <= 100.0)
    ensures Numeric(c).Some? ==> (m >= 0.0 <==> Numeric(c).value >= 0.0)
  {
    match Numeric(c)
    case None => DefaultMargin
    case Some(v) => if v > 1.0 then v / 100.0 else v
  }

  /** A margin written as a percentage above 1 and the same margin written
      as a fraction are read alike. */
  lemma MarginPercentOrFraction(percent: Cell, fraction: Cell)
    requires Numeric(percent).Some? && Numeric(fraction).Some?
    requires 1.0 < Numeric(percent).value <= 100.0
    requires Numeric(fraction).value * 100.0 == Numeric(percent).value
    ensures CoerceMargin(percent) == CoerceMargin(fraction)
  {
  }

  /** The reading is not monotone at 1: the number 1 is read as a 100% margin
      while 1.5 is read as 1.5%. */
  lemma MarginJumpAtOne(one: Cell, oneAndHalf: Cell)
    requires Numeric(one) == Some(1.0) && Numeric(oneAndHalf) == Some(1.5)
    ensures CoerceMargin(one) == 1.0 && CoerceMargin(oneAndHalf) == 0.015
    ensures CoerceMargin(oneAndHalf) < CoerceMargin(one)
  {
  }

  /** A number cell, or 0.0 for a cell that is not a number (`envase_extra`, `costo_manual`). */
  function CoerceAmount(c: Cell): (a: real)
    ensures Numeric(c).Some? ==> a == Numeric(c).value
    ensures Numeric(c).None? ==> a == 0.0
  {
    Numeric(c).GetOr(0.0)
  }

  /** The freight flag: freight is charged unless the stripped, upper-cased
      text mentions `NO` or `FALSE` anywhere. */
  function CoerceFreight(c: Cell): (charge: bool)
    ensures !charge <==> Contains(Upper(Str(c)), "NO") || Contains(Upper(Str(c)), "FALSE")
  {
    var t := Strip(Upper(Str(c)));
    ContainsStripped(Upper(Str(c)), "NO");
    ContainsStripped(Upper(Str(c)), "FALSE");
    !(Contains(t, "NO") || Contains(t, "FALSE"))
  }

  /** A blank freight cell reads as `nan`, which mentions neither `NO` nor
      `FALSE`, so it charges freight. */
  lemma BlankChargesFreight()
    ensures CoerceFreight(Blank)
  {
    var nan := Upper(Str(Blank));
    assert nan == "NAN";
    assert !Contains(nan, "NO") by {
      forall i: nat | i <= |nan| ensures !OccursAt(nan, "NO", i) {
        if i + 2 <= |nan| {
          assert nan[i..i + 2][0] == nan[i];
          assert nan[i..i + 2][1] == nan[i + 1];
        }
      }
    }
    assert !Contains(nan, "FALSE");
  }

  /** A blank freight cell charges freight; any text containing `NO`, such
      as `NORMAL`, does not. */
  lemma FreightFlagExamples(normal: Cell)
    requires normal == Value("normal", None)
    ensures CoerceFreight(Blank)
    ensures !CoerceFreight(normal)
  {
    BlankChargesFreight();
    var n := Upper(Str(normal));
    assert n == "NORMAL";
    assert OccursAt(n, "NO", 0);
  }

  /** The key a rules row is filed under: its product text, upper-cased and stripped. */
  function RuleKey(c: Cell): string {
    Strip(Upper(Str(c)))
  }

  /** The key is the same text the cost sheet looks rules up with (stripped, then upper-cased). */
  lemma RuleKeyIsLookupKey(c: Cell)
    ensures RuleKey(c) == Upper(Strip(Str(c)))
  {
    StripUpper(Str(c));
  }

  /** The rule one row of the sheet states, given which columns exist. */
  function RuleOf(cols: RuleColumns, row: seq<Cell>): (r: Rule)
    ensures cols.margin.None? ==> r.margin == DefaultMargin
    ensures cols.packaging.None? ==> r.packaging == 0.0
    ensures cols.freight.None? ==> r.chargeFreight
    ensures cols.manual.None? ==> r.manualCost == 0.0
  {
    Rule(
      if cols.margin.Some? then CoerceMargin(CellAt(row, cols.margin.value)) else DefaultMargin,
      if cols.packaging.Some? then CoerceAmount(CellAt(row, cols.packaging.value)) else 0.0,
      if cols.freight.Some? then CoerceFreight(CellAt(row, cols.freight.value)) else true,
      if cols.manual.Some? then CoerceAmount(CellAt(row, cols.manual.value)) else 0.0)
  }

  /** A rules row reads only the cells of its chosen columns: two rows that
      agree there state the same rule. */
  lemma RuleOfFrame(cols: RuleColumns, row: seq<Cell>, row': seq<Cell>)
    requires cols.margin.Some? ==> CellAt(row, cols.margin.value) == CellAt(row', cols.margin.value)
    requires cols.packaging.Some? ==> CellAt(row, cols.packaging.value) == CellAt(row', cols.packaging.value)
    requires cols.freight.Some? ==> CellAt(row, cols.freight.value) == CellAt(row', cols.freight.value)
    requires cols.manual.Some? ==> CellAt(row, cols.manual.value) == CellAt(row', cols.manual.value)
    ensures RuleOf(cols, row) == RuleOf(cols, row')
  {
  }

  /** A row whose cells are all blank states exactly the rule a product
      without a rules row gets, whichever columns the sheet has. */
  lemma BlankRowIsDefault(cols: RuleColumns, row: seq<Cell>)
    requires forall j :: 0 <= j < |row| ==> row[j].Blank?
    ensures RuleOf(cols, row) == DefaultRule
  {
    BlankChargesFreight();
    RuleOfFrame(cols, row, []);
  }

  /** The normalized column labels of a rules sheet (its first row is the header). */
  function RuleSheetColumns(raw: seq<seq<Cell>>): RuleColumns {
    FindRuleColumns(NormalizeColumns(TableAt(raw, 0).columns))
  }

  /** The key of a rules row whose product text is in column `p`. */
  function KeyIn(p: nat): seq<Cell> -> string {
    row => RuleKey(CellAt(row, p))
  }

  /** Every row of the rules sheet is loaded. */
  function AnyRow(): seq<Cell> -> bool {
    row => true
  }

  function RuleIn(cols: RuleColumns): seq<Cell> -> Rule {
    row => RuleOf(cols, row)
  }

  /** Row `i` is the last row of `rows` filed under its key. */
  ghost predicate LastRowWithKey(rows: seq<seq<Cell>>, p: nat, i: int) {
    && 0 <= i < |rows|
    && forall j :: i < j < |rows| ==> RuleKey(CellAt(rows[j], p)) != RuleKey(CellAt(rows[i], p))
  }

  /** The dictionary the rules sheet loads into: empty without a product
      column, else every row filed under its key, a later row replacing an
      earlier one with the same key. */
  function LoadRules(raw: seq<seq<Cell>>): (rules: map<string, Rule>)
    ensures RuleSheetColumns(raw).product.None? ==> rules == map[]
  {
    var cols := RuleSheetColumns(raw);
    if cols.product.None? then map[]
    else LastWins(TableAt(raw, 0).rows, AnyRow(), KeyIn(cols.product.value), RuleIn(cols))
  }

  /** Loading rows whose product text is in column `p`: the keys are exactly
      the rows' keys. */
  lemma LoadedKeys(rows: seq<seq<Cell>>, p: nat, cols: RuleColumns)
    ensures LastWins(rows, AnyRow(), KeyIn(p), RuleIn(cols)).Keys == (set i | 0 <= i < |rows| :: RuleKey(CellAt(rows[i], p)))
  {
    LastWinsSpec(rows, AnyRow(), KeyIn(p), RuleIn(cols));
    assert KeptKeys(rows, AnyRow(), KeyIn(p)) == (set i | 0 <= i < |rows| :: RuleKey(CellAt(rows[i], p)));
  }

  /** Loading rows whose product text is in column `p`: a key holds the rule
      of the last row filed under it. */
  lemma LoadedLastRow(rows: seq<seq<Cell>>, p: nat, cols: RuleColumns, i: int)
    requires LastRowWithKey(rows, p, i)
    ensures var m := LastWins(rows, AnyRow(), KeyIn(p), RuleIn(cols));
            RuleKey(CellAt(rows[i], p)) in m && m[RuleKey(CellAt(rows[i], p))] == RuleOf(cols, rows[i])
  {
    LastWinsSpec(rows, AnyRow(), KeyIn(p), RuleIn(cols));
    assert LastWithKey(rows, AnyRow(), KeyIn(p), i);
  }

  /** Without a product column nothing is loaded. With one, the keys are
      exactly the rows' keys, and each key holds the rule of the last row
      filed under it. */
  lemma LoadRulesSpec(raw: seq<seq<Cell>>)
    ensures RuleSheetColumns(raw).product.None? ==> LoadRules(raw) == map[]
    ensures RuleSheetColumns(raw).product.Some? ==>
            var p := RuleSheetColumns(raw).product.value;
            var rows := TableAt(raw, 0).rows;
            && LoadRules(raw).Keys == (set i | 0 <= i < |rows| :: RuleKey(CellAt(rows[i], p)))
            && forall i :: LastRowWithKey(rows, p, i) ==>
                 RuleKey(CellAt(rows[i], p)) in LoadRules(raw)
                 && LoadRules(raw)[RuleKey(CellAt(rows[i], p))] == RuleOf(RuleSheetColumns(raw), rows[i])
  {
    var cols := RuleSheetColumns(raw);
    if cols.product.Some? {
      LoadedRulesSpec(raw, cols, cols.product.value);
    }
  }

  lemma LoadedRulesSpec(raw: seq<seq<Cell>>, cols: RuleColumns, p: nat)
    requires cols == RuleSheetColumns(raw) && cols.product == Some(p)
    ensures var rows := TableAt(raw, 0).rows;
            && LoadRules(raw).Keys == (set i | 0 <= i < |rows| :: RuleKey(CellAt(rows[i], p)))
            && forall i :: LastRowWithKey(rows, p, i) ==>
                 RuleKey(CellAt(rows[i], p)) in LoadRules(raw)
                 && LoadRules(raw)[RuleKey(CellAt(rows[i], p))] == RuleOf(cols, rows[i])
  {
    var rows := TableAt(raw, 0).rows;
    LoadedKeys(rows, p, cols);
    forall i | LastRowWithKey(rows, p, i)
      ensures var m := LastWins(rows, AnyRow(), KeyIn(p), RuleIn(cols));
              RuleKey(CellAt(rows[i], p)) in m && m[RuleKey(CellAt(rows[i], p))] == RuleOf(cols, rows[i])
    {
      LoadedLastRow(rows, p, cols, i);
    }
  }
}

/** `procesar_excel` end to end: the rules workbook and the cost workbook in,
    the sorted price list out. A workbook is given as the rows of its first
    sheet, or `None` when the file is missing or cannot be read. */
module Pipeline {
  import opened Collections
  import opened Sheets
  import opened Rules
  import opened Overrides
  import opened CostTable
  import opened Pricing
  import opened Resolve
  import opened Catalog

  /** `cargar_reglas_excel`: the rules, or none without a rules workbook. */
  function LoadedRules(rulesSheet: Option<seq<seq<Cell>>>): map<string, Rule> {
    match rulesSheet
    case None => map[]
    case Some(raw) => LoadRules(raw)
  }

  /** The priced lines of a cost workbook before dedup and sort: `None` when
      it lacks a name or cost column or an item divides by zero. */
  function PricedLines(db: Edits, rules: map<string, Rule>, raw: seq<seq<Cell>>): Option<seq<Product>> {
    var sheet := CostSheet(raw);
    match FindCostColumns(NormalizeColumns(sheet.columns))
    case None => None
    case Some(cols) =>
      var items := Ingest(rules, cols, sheet.rows);
      ResolveAll(rules, db, MasterPrices(items), items)
  }

  /** `procesar_excel`: the empty list when the cost workbook is missing or
      unusable or pricing fails, else one line per name and size, by name. */
  function PriceList(db: Edits, rulesSheet: Option<seq<seq<Cell>>>, costSheet: Option<seq<seq<Cell>>>): (list: seq<Product>)
    ensures costSheet.None? ==> list == []
  {
    match costSheet
    case None => []
    case Some(raw) =>
      match PricedLines(db, LoadedRules(rulesSheet), raw)
      case None => []
      case Some(lines) => SortByName(Dedup(lines))
  }

  lemma PermutationKeeps(a: seq<Product>, b: seq<Product>, ps: seq<Product>)
    requires multiset(a) == multiset(b)
    requires AllFirstBest(a, ps)
    ensures AllFirstBest(b, ps)
    ensures KeySet(b) == KeySet(a)
  {
    forall j | 0 <= j < |b| ensures exists i :: FirstBest(ps, i) && ps[i] == b[j] {
      assert b[j] in multiset(a);
      var k :| 0 <= k < |a| && a[k] == b[j];
    }
    forall p ensures p in a <==> p in b {
      assert p in a <==> p in multiset(a);
      assert p in b <==> p in multiset(b);
    }
  }

  /** Dedup then sort: sorted by name, one line per name and size, every
      name and size of the lines kept, each by the first of its dearest
      lines in Lima. */
  lemma SortedDedupSpec(lines: seq<Product>)
    ensures var list := SortByName(Dedup(lines));
            && SortedByName(list)
            && UniqueKeys(list)
            && KeySet(list) == KeySet(lines)
            && AllFirstBest(list, lines)
  {
    var kept := Dedup(lines);
    DedupInvariant(lines);
    SortByNameSpec(kept);
    SortKeepsUniqueKeys(kept);
    PermutationKeeps(kept, SortByName(kept), lines);
  }

  /** The list is empty without a cost workbook or when pricing fails.
      When pricing succeeds, the list is sorted by name and has one line per
      name and size; it covers every name and size that was priced, and each
      line is the first of the dearest in Lima among its name and size. */
  lemma PriceListSpec(db: Edits, rulesSheet: Option<seq<seq<Cell>>>, costSheet: Option<seq<seq<Cell>>>)
    ensures costSheet.None? ==> PriceList(db, rulesSheet, costSheet) == []
    ensures costSheet.Some? && PricedLines(db, LoadedRules(rulesSheet), costSheet.value).None? ==>
              PriceList(db, rulesSheet, costSheet) == []
    ensures costSheet.Some? && PricedLines(db, LoadedRules(rulesSheet), costSheet.value).Some? ==>
              var lines := PricedLines(db, LoadedRules(rulesSheet), costSheet.value).value;
              var list := PriceList(db, rulesSheet, costSheet);
              && SortedByName(list)
              && UniqueKeys(list)
              && KeySet(list) == KeySet(lines)
              && AllFirstBest(list, lines)
  {
    if costSheet.Some? {
      var priced := PricedLines(db, LoadedRules(rulesSheet), costSheet.value);
      if priced.Some? {
        SortedDedupSpec(priced.value);
      }
    }
  }

  /** Pricing fails, and the list is empty, exactly when the cost workbook
      lacks a name or cost column or one of its items, priced with the
      loaded rules, divides by zero. */
  lemma PricedLinesFail(db: Edits, rules: map<string, Rule>, raw: seq<seq<Cell>>)
    ensures var sheet := CostSheet(raw);
            match FindCostColumns(NormalizeColumns(sheet.columns))
            case None => PricedLines(db, rules, raw).None?
            case Some(cols) =>
              var items := Ingest(rules, cols, sheet.rows);
              PricedLines(db, rules, raw).None? <==>
                exists i :: 0 <= i < |items| && ResolveRow(rules, db, MasterPrices(items), items[i]).DivideByZero?
  {
    var sheet := CostSheet(raw);
    match FindCostColumns(NormalizeColumns(sheet.columns))
    case None =>
    case Some(cols) =>
      var items := Ingest(rules, cols, sheet.rows);
      ResolveAllFailsExactly(rules, db, MasterPrices(items), items);
  }
}

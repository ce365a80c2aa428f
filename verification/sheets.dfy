/** Spreadsheet contents as the pipeline sees them once pandas has parsed a
    file: rows of cells, each cell either blank (NaN) or a value that knows
    both its `str()` rendering and its `pd.to_numeric(..., errors='coerce')`
    reading. */
module Sheets {
  import opened Strings
  import opened Collections

  /** `number` is `None` when `to_numeric` gives NaN (text that is not a number). */
  datatype Cell = Blank | Value(text: string, number: Option<real>)

  /** `str(x)`: pandas renders a blank cell as `"nan"`. */
  function Str(c: Cell): string {
    match c
    case Blank => "nan"
    case Value(t, _) => t
  }

  /** `pd.to_numeric(x, errors='coerce')`, with NaN as `None`. */
  function Numeric(c: Cell): Option<real> {
    match c
    case Blank => None
    case Value(_, n) => n
  }

  /** `pd.notna(x)`. */
  predicate NotNa(c: Cell) {
    c.Value?
  }

  /** The cell of `row` in column `j`; a short row reads as blank past its end. */
  function CellAt(row: seq<Cell>, j: nat): Cell {
    if j < |row| then row[j] else Blank
  }

  /** A parsed table: column labels and the data rows below the header row. */
  datatype Table = Table(columns: seq<string>, rows: seq<seq<Cell>>)

  /** The label pandas gives column `j` when its header cell is `c`:
      a blank header cell becomes `Unnamed: j`. */
  function ColumnLabel(c: Cell, j: nat): (name: string)
    ensures c.Value? ==> name == c.text
    ensures c.Blank? ==> |name| > 9 && name[..9] == "Unnamed: " && AllDigits(name[9..]) && DigitsValue(name[9..]) == j
  {
    match c
    case Blank =>
      var name := "Unnamed: " + NatText(j);
      assert name[9..] == NatText(j);
      name
    case Value(t, _) => t
  }

  /** Reading a sheet with `header=k`: row `k` names the columns and the rows
      after it are the data. A sheet with no row `k` has neither. */
  function TableAt(raw: seq<seq<Cell>>, k: nat): (t: Table)
    ensures k < |raw| ==> |t.columns| == |raw[k]| && t.rows == raw[k + 1..]
    ensures k < |raw| ==> forall j :: 0 <= j < |raw[k]| ==> t.columns[j] == ColumnLabel(raw[k][j], j)
    ensures k >= |raw| ==> t.columns == [] && t.rows == []
  {
    if k < |raw| then
      Table(seq(|raw[k]|, j requires 0 <= j < |raw[k]| => ColumnLabel(raw[k][j], j)), raw[k + 1..])
    else Table([], [])
  }

  /** `[str(c).strip().lower() for c in df.columns]`. */
  function NormalizeColumns(columns: seq<string>): (names: seq<string>)
    ensures |names| == |columns|
    ensures forall j :: 0 <= j < |columns| ==> names[j] == Lower(Strip(columns[j]))
  {
    seq(|columns|, j requires 0 <= j < |columns| => Lower(Strip(columns[j])))
  }

  /** A normalized label is already stripped and lower-case: it has no
      capital ASCII letter, no blank at either end, and normalizing it again
      changes nothing. */
  lemma NormalizedLabelsAreFixed(columns: seq<string>)
    ensures forall j :: 0 <= j < |columns| ==>
              var n := NormalizeColumns(columns)[j];
              Strip(n) == n && forall k :: 0 <= k < |n| ==> !('A' <= n[k] <= 'Z')
    ensures NormalizeColumns(NormalizeColumns(columns)) == NormalizeColumns(columns)
  {
    var names := NormalizeColumns(columns);
    forall j | 0 <= j < |columns| ensures Strip(names[j]) == names[j] && Lower(names[j]) == names[j] {
      var c := Strip(columns[j]);
      StripLower(c);
      StripIdempotent(columns[j]);
      CaseFolds(c);
    }
  }
}

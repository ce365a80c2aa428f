# Lista-precios pricing pipeline, in Dafny

This project models the price-list builder of `app.py`, a Flask service. The
service reads two spreadsheets. The first is an ERP cost export with a
product name and a unit cost in USD. The second is an optional master rules
workbook giving, per product, a margin, an extra packaging cost, whether
provincial freight is charged and a manual cost. It also reads a JSON file
of manual margin edits.

From these the service builds the cached price list. Each line holds a Lima
price and two provincial prices (Arequipa, Trujillo). The `/buscar` route
filters that list by the words of a query.

Once a spreadsheet is given as rows of already parsed cells, every step is a
pure function. The modules follow the pipeline:

- `Strings`: Python's `strip`, `upper`, `lower`, `split`, `in`, `' '.join` and
  string ordering on `seq<char>`.
- `Collections`: the shapes of the source's loops. These are
  `next(...)` (`FirstWhere`, `FirstFrom`), a filtering list comprehension
  (`FilterMap`) and a dictionary filled by a loop where later writes win
  (`LastWins`).
- `Sheets`: cells (blank, or a value with its `str()` text and its
  `to_numeric` reading), and re-reading a sheet with a chosen header row.
- `SizeParser`: `detectar_info`. The size is the number of the leftmost
  `(\d+)\s*KG` match, else a literal-phrase fallback. The hazard flag comes
  from four acid and ammonia words.
- `BaseNames`: the `re.sub` that removes one trailing size suffix
  (`\s*X?\s*\d+\.?\d*\s*(KG|G|L|LT|GALON|ML)\s*$`) and then strips. It is
  given as a grammar predicate, a greedy recognizer proved equal to it, and
  "the leftmost start whose rest is a suffix".
- `Rules`: `cargar_reglas_excel`. It covers column picking, per-cell
  coercion and rows keyed by upper-cased stripped name (the last row wins).
- `CostTable`: three parts of the cost sheet.
  - `cargar_df_seguro`'s header-row search.
  - Column picking.
  - The first loop of `procesar_excel`: items, the manual-cost uplift and
    the master price per base name.
- `Overrides`: the manual edits map, `guardar_db_manual` and the margin
  editor.
- `Pricing`: one turn of the second loop. It covers backfilling the cost,
  the rule and margin override, packaging per kilogram, freight, and
  Python's `round` (half to even).
- `Resolve`: the whole second loop.
  - Writing an override into the rules dictionary
    (`regla['margen'] = ...`) changes the shared entry. So an override also
    reaches later items whose names upper-case to the same key. The
    dictionary is threaded through the loop to reproduce this.
  - A division by zero aborts the list.
- `Catalog`: the dedup on name and size, where the dearest Lima price wins
  and the first line wins a tie. Then the stable sort by name.
- `Pipeline`: `procesar_excel` end to end.
- `Search`: the `/buscar` filter.

What `app.py` does that a reader might not expect:

- Rules are looked up by the exact upper-cased name only; there is no
  base-name fallback.
- The freight flag is false exactly when its text contains `NO` or `FALSE`.
- Columns are picked by substring.
- Only `<digits> KG` gives a size, with no gram or millilitre conversion.
- Dedup is keyed on name and size.
- The final order is by full name.

The package size is not always positive: a name such as `X 0KG` reads as
0 kg. When its rule has an extra packaging cost, the division raises. The
broad exception handler then turns the whole price list into `[]`.
`Resolve.ResolveAllFailsExactly` and `Pipeline.PricedLinesFail` state this
outcome.

## Model

| member | source | states |
|---|---|---|
| `Strings.Strip` | app.py:149 | `strip()` returns the infix of the text between its leading and trailing white space. The result is empty exactly when the text is all white space, and it starts and ends with a non-space character. |
| `Strings.Upper` | app.py:43 | `upper()` keeps the length and changes exactly the lower-case ASCII letters, each to its capital, so no lower-case letter is left. |
| `Strings.Lower` | app.py:131 | `lower()` keeps the length and changes exactly the ASCII capitals, each to its lower-case letter, so no capital is left. |
| `Strings.CaseFolds` | app.py:43 | Upper-casing or lower-casing twice, or after the other, is the same as doing it once. |
| `Strings.StripIdempotent` | app.py:149 | Stripping an already stripped text changes nothing. |
| `Strings.StripUpper` | app.py:71 | Upper-casing then stripping gives the same text as stripping then upper-casing. |
| `Strings.StripLower` | app.py:131 | Lower-casing then stripping gives the same text as stripping then lower-casing. |
| `Strings.ContainsStripped` | app.py:84-85 | A non-empty word without white space occurs in the stripped text exactly when it occurs in the raw text. |
| `Strings.ContainsJoin` | app.py:111 | A word without white space occurs in `a + " " + b` exactly when it occurs in `a` or in `b`. |
| `Strings.JoinContains` | app.py:111 | A non-empty word without white space occurs in the blank-joined texts exactly when it occurs in one of them. |
| `Strings.Words` | app.py:259 | `split()` yields non-empty words without white space, and yields none exactly when the text is all white space. |
| `Strings.WordsOfWord` | app.py:259 | A non-empty text without white space splits into one word, itself. |
| `Strings.WordsJoin` | app.py:259 | The words of two texts joined by a blank are the words of the first then those of the second. With `WordsOfWord`, this pins `split()` to the maximal non-space runs. |
| `Strings.WordsKeepEveryNonSpace` | app.py:259 | Glued back together, the words are exactly the non-space characters of the text, in order. |
| `Strings.WordsOccur` | app.py:259 | Every word that `split()` yields occurs in the text. |
| `Strings.StrLeTotal` | app.py:231 | Any two names are comparable in the order the sort uses (code point by code point, a prefix first). |
| `Strings.StrLeTransitive` | app.py:231 | That order is transitive. |
| `Strings.StrLeAntisymmetric` | app.py:231 | Two names each at most the other are equal. |
| `Strings.UpperHasNoLower` | app.py:155-158 | An upper-cased text contains no lower-case ASCII letter. |
| `Collections.FirstWhere` | app.py:133 | `next(...)` gives the first position passing the test, and `None` exactly when no position passes. |
| `Collections.FirstMatchUnique` | app.py:61-65 | At most one position is the first to pass a test (or `None` when none passes), so the `next(...)` description of a column choice pins it. |
| `Collections.FilterMapConcat` | app.py:148-176 | A filtering comprehension over a concatenation is the comprehension over each part, one after the other. Over one element it gives that element's result or nothing, so results come in input order, one per element with a result. |
| `Collections.LastWinsSpec` | app.py:179 | A dictionary filled by a loop has as keys exactly the keys of the kept elements. Each key holds the value of the last kept element with that key. |
| `Sheets.ColumnLabel` | app.py:116-117 | A header cell with text names its column by that text. A blank header cell becomes `Unnamed: j`, with `j` the column position. |
| `Sheets.TableAt` | app.py:116-117 | Read with header row `k`, column `j` is labelled by cell `j` of row `k` (or `Unnamed: j` when that cell is blank), and the rows after row `k` are the data. A sheet without row `k` has neither. |
| `Sheets.NormalizedLabelsAreFixed` | app.py:131 | A normalized label has no capital letter and no blank at either end, so normalizing the labels again changes nothing. |
| `SizeParser.KgMatchIsGreedy` | app.py:44 | In a match of `(\d+)\s*KG` starting at a given position, the group is the whole digit run there and all blanks after it are skipped. |
| `SizeParser.ScanKg` | app.py:44 | The scan returns a match of `(\d+)\s*KG` at or after the start with no match further left, or `None` exactly when there is no match. |
| `SizeParser.KgGroupUnique` | app.py:44-45 | Where a match starts fixes the group it captures. |
| `SizeParser.DetectKg` | app.py:43-49 | The size is the value of the digits of the leftmost `(\d+)\s*KG` in the upper-cased name. Without a match it is the phrase fallback (`1LT`/`1 LT` → 1.0, `GALON` → 3.785, `250ML` → 0.25, else 1.0). It is never negative, and it is 0 only when the leftmost match's digits read 0. |
| `SizeParser.DetectInfo` | app.py:42-53 | The size is never negative. A name is hazardous exactly when its upper-cased form mentions `SULFURICO`, `NITRICO`, `CLORHIDRICO` or `AMONIACO`. It is a liquid exactly when it mentions `LIQ`, `ACIDO`, `JARABE`, `ESENCIA` or `SOLUCION`. |
| `SizeParser.DetectInfoIgnoresCase` | app.py:42-53 | The name is upper-cased first, so its size, kind and hazard flag do not depend on letter case. |
| `BaseNames.RecognizerIsExact` | app.py:178 | The greedy recognizer accepts a suffix exactly when it has the shape blanks, optional `X`, blanks, digits with an optional dot and digits, blanks, a unit, blanks. |
| `BaseNames.FirstSuffixStartIsLeast` | app.py:178 | The scan finds the leftmost position whose rest is a size suffix (the text the `$`-anchored `re.sub` replaces), and finds none exactly when no position is. |
| `BaseNames.BaseName` | app.py:187 | The base name is the stripped text before the leftmost size suffix, or the stripped name when there is no suffix. It is no longer than the name and starts and ends with a non-space character. |
| `BaseNames.BaseNameOfTwoSizes` | app.py:187 | Only one suffix is removed: the base name of `A 5KG 1KG` is `A 5KG`. |
| `BaseNames.BaseNameNotIdempotent` | app.py:187 | Taking the base name twice can remove more than taking it once. |
| `Rules.FindRuleColumns` | app.py:61-65 | Each rules column is the first label passing its test (`prod`/`nombre`, `margen`, `envase`/`extra`, `flete`/`cobrar`, `manual`/`costo`), or absent when no label does. |
| `Rules.CoerceMargin` | app.py:73-76 | A cell without a number gives the default 0.20. A number reads as a margin of at most 100% exactly when it is at most 100, and as a non-negative margin exactly when it is non-negative. |
| `Rules.MarginPercentOrFraction` | app.py:75 | A margin above 1% given as a percentage reads the same as the same margin given as a fraction. |
| `Rules.MarginJumpAtOne` | app.py:75 | The reading is not monotone: 1 reads as 100% but 1.5 reads as 1.5%. |
| `Rules.CoerceFreight` | app.py:83-86 | Freight is not charged exactly when the upper-cased cell text (`nan` for a blank) contains `NO` or `FALSE`. |
| `Rules.FreightFlagExamples` | app.py:83-86 | A blank freight cell charges freight, and the text `normal` does not. |
| `Rules.RuleKeyIsLookupKey` | app.py:71 | A rule's key (upper-cased, then stripped) is the key the cost sheet looks it up by (stripped, then upper-cased). |
| `Rules.RuleOfFrame` | app.py:72-98 | A rule reads only the cells of the margin, packaging, freight and manual-cost columns: two rows that agree there give the same rule. |
| `Rules.BlankRowIsDefault` | app.py:72-98 | A row whose cells are all blank gives exactly the rule of a product without a rules row: margin 0.20, no packaging cost, freight charged, no manual cost. |
| `Rules.LoadRulesSpec` | app.py:67-98 | Without a product column no rules are loaded. With one, the keys are exactly the rows' keys, and each key holds the rule of the last row filed under it. |
| `CostTable.RowTextHas` | app.py:111 | The joined row text contains a header word exactly when one non-blank cell's lower-cased text does. |
| `CostTable.HeaderRowByCells` | app.py:112 | The header test on the joined text is the same test asked of the cells. |
| `CostTable.HeaderRowIndex` | app.py:109-114 | The header row is the first row that mentions `producto` or `name`, and also `c/u`, `cost` or `precio`. It is row 0 when no row does. |
| `CostTable.FindCostColumns` | app.py:133-143 | There are no columns (and no list) exactly when the name column or the cost column is missing. The cost column is the first one mentioning `c/u`, `usd`, `$`, `cost` or `unit`. The name column is the first exactly named `producto`/`nombre`/`name`, else the first mentioning `producto` but neither `categor` nor `cod`. The category, brand, code and unit columns are the first mentioning `categor`, `marca`, `codigo`/`código` and `unidad`, or absent. |
| `CostTable.ListedCostRepairsNaN` | app.py:166 | The corrected reading agrees with the source's wherever the source reads a number. Where the source reads NaN, which escapes the missing-cost test, the corrected cost is caught by it. See Findings. |
| `CostTable.BlankCostIsNaN` | app.py:166 | As written, a blank cost cell reads as NaN, which escapes the missing-cost test. The corrected reading is caught by it, and both readings agree on numbers. |
| `CostTable.IngestRowSpec` | app.py:148-176 | A row is skipped exactly when its stripped name is empty or `nan`. Otherwise the item keeps the stripped name and the size read from it. Category, brand and unit are the upper-cased stripped cell, and the code is the stripped cell. A missing column or blank cell gives `GENERAL`, `GENERICO`, `KG` and `S/C`. The cost is the manual cost raised by 5% when the exact upper-cased name has a rule with a manual cost above 0, else the listed cost. |
| `CostTable.IngestInSheetOrder` | app.py:148-176 | Items come in sheet order, one per row with a name: two stretches of rows give the items of the first then those of the second, and one row gives its item or nothing. |
| `CostTable.MasterPricesSpec` | app.py:178-179 | The master prices are keyed by exactly the base names of items costing more than 0.0001. Each holds the cost of the last such item, and every master price is above the floor. |
| `CostTable.LastPricedIndex` | app.py:179 | Every priced item has a last priced item with the same base name. |
| `Overrides.SetField` | app.py:36-37 | Setting a field creates the product's entry when missing and sets that field. Other fields and other products are unchanged. |
| `Overrides.EditThenOverride` | app.py:286 | After the margin editor stores a percentage, the product's override is that percentage over 100. Every other product's override is unchanged. |
| `Overrides.OtherFieldKeepsOverride` | app.py:36-37 | Setting a field other than `margen` changes no override. |
| `Pricing.RoundHalfEven` | app.py:217-220 | Rounding gives an integer within one half, and the even one on a tie. |
| `Pricing.Cents` | app.py:218-220 | `round(x, 2)` is a whole number of cents within half a cent of `x`. |
| `Pricing.Tenths` | app.py:217 | `round(x, 1)` is a whole number of tenths within half a tenth of `x`. |
| `Pricing.CentsIdempotent` | app.py:218-220 | Rounding a rounded price to cents again changes nothing. |
| `Pricing.UnitCost` | app.py:186-191 | A cost above 0.0001 is used as is. A lower cost takes the master price of the base name, and the item is dropped when there is none. When every master price is above the floor, so is every cost an item is priced at. |
| `Pricing.EditedMarginPrices` | app.py:193-194 | After the margin editor stores a percentage for an item's full name, the item is priced with that percentage over 100 and its rule is otherwise unchanged. Items with any other name are priced as before. |
| `Pricing.PackagingPerKg` | app.py:196-200 | It fails exactly when there is an extra packaging cost and the size is 0. Otherwise, times the size, it is the package cost: the extra cost, else 0.15 at 1 kg, 0.40 at 5 kg, else nothing. At size 0 without an extra cost it is 0. |
| `Pricing.Freight` | app.py:205-207 | Freight is zero exactly when it is not charged. When charged it is 0.11 exactly for hazardous names, else 0.08. |
| `Pricing.ResolveRowSpec` | app.py:202-222 | A line keeps the item's fields. Its Lima price is a whole number of cents within half a cent of (cost + packaging) × (1 + margin). The two provincial prices are equal, a whole number of cents, and within half a cent of that unrounded Lima price plus freight. The margin shown is a whole number of tenths within 0.05 of the margin × 100. The freight status is `SI` exactly when freight is charged. |
| `Pricing.DivideByZeroExactly` | app.py:189-197 | An item fails exactly when it has a usable cost, an extra packaging cost and size 0. It is dropped exactly when it has no usable cost. |
| `Pricing.HazardousFiveKgExample` | app.py:196-222 | `ACIDO SULFURICO 5KG` at cost 10 with no rule is priced 12.10 in Lima and 12.21 in the provinces, with margin 20.0 and freight `SI`. |
| `Resolve.ThreadIsLastOverride` | app.py:193-194 | After the loop, the rules dictionary has the same keys. Each entry differs from the loaded rule at most in its margin, which is the override of the last item that wrote into it. |
| `Resolve.InheritedMargin` | app.py:193-194 | An item without its own override is priced with the override of the last earlier item whose name upper-cases to the same rule key. |
| `Resolve.Collect` | app.py:181-223 | The list fails exactly when some item divides by zero. Otherwise it has no more lines than items, every line comes from an item, and every item that gives a line has it in the list. |
| `Resolve.ResolveAllSnoc` | app.py:181-223 | Lines come in item order, at most one per item: no items give no lines, and one more item either aborts the list, leaves it unchanged (the item is dropped), or appends that item's line. |
| `Resolve.FailureIgnoresLeak` | app.py:194-197 | Whether an item divides by zero does not depend on the items priced before it. |
| `Resolve.ResolveAllFailsExactly` | app.py:181-236 | Pricing the list fails exactly when one of its items, priced with the loaded rules, divides by zero. |
| `Catalog.KeyIndex` | app.py:227-228 | The lookup finds the first line with the given name and size, and finds none exactly when no line has them. |
| `Catalog.DedupInvariant` | app.py:225-230 | After dedup, no two lines share name and size, and every name and size of the input is present. Each kept line is the first line with the highest Lima price among those sharing its name and size. |
| `Catalog.DedupOrder` | app.py:230 | The kept lines come in the order their name and size first appear, as dictionary values keep their insertion position. |
| `Catalog.SortByNameSpec` | app.py:231 | The sort orders by name, keeps every line (the same multiset), and keeps lines with the same name in their original order. |
| `Catalog.SortKeepsUniqueKeys` | app.py:231 | Sorting keeps one line per name and size. |
| `Pipeline.PriceListSpec` | app.py:122-236 | Without a cost workbook, or when pricing fails, the list is empty. When pricing succeeds, the list is sorted by name and has one line per name and size. It covers every priced name and size, each line being the first dearest line of its name and size. |
| `Pipeline.PricedLinesFail` | app.py:143-236 | The list is empty exactly when the cost sheet lacks a name or cost column, or one of its items divides by zero. |
| `Search.Filter` | app.py:260 | Each line appears in the result as often as in the cache when it matches every word, and never otherwise. |
| `Search.FilterConcat` | app.py:260 | Filtering a concatenation filters each part, so the result keeps the cache's order. |
| `Search.Search` | app.py:254-260 | An empty query (after upper-casing and stripping) returns the whole cache. Otherwise a line is in the result exactly when it is in the cache and its upper-cased name contains every word of the query. The result never has more copies of a line than the cache. |
| `Search.SearchIdempotent` | app.py:254-260 | Searching the result again with the same query returns it unchanged. |
| `Search.SearchFindsOwnName` | app.py:254-260 | Searching for a line's full name, in any letter case, lists that line. |

## Left out

- File and network I/O are parameters. This covers reading the workbooks,
  the JSON edits file, the Flask routes, uploads and the global cache. A
  workbook is the rows of its first sheet, or `None` when it is missing or
  unreadable.
- pandas parsing is not modelled. A cell arrives with both its `str()` text
  and its `to_numeric` number, and pandas' own handling of blank lines and
  repeated column labels is not represented.
- `Strings.Upper`, `Strings.Lower`: letter case changes only for ASCII
  letters. `str.upper` and `str.lower` also change accented and other
  Unicode letters. So a cost-sheet header `CÓDIGO` becomes `código` in the
  source and is taken as the code column, while the model keeps the `Ó` and
  finds no code column. The regex classes `\d` and `\s` are taken as ASCII
  digits and Python's white-space set.
- `Pricing.Cents`: rounding is exact half-to-even on real numbers. Python
  rounds the nearest binary float, so a price whose binary value lies just
  below a tie can round the other way.
- `Pricing.ResolveRowSpec`: the margin field is the rounded number. The
  source formats it as a string with `f"{...}"`.
- `CostTable.ListedCost`: this is the corrected reading of a cost cell
  without a number, 0.0 rather than NaN; see Findings.
- Floating-point arithmetic elsewhere (the ×1.05 uplift, the divisions) is
  exact real arithmetic.
- Of the exceptions the source catches, only the division by zero in the
  packaging cost is modelled (as the empty list). The others come from I/O
  or pandas and are not represented.
- The `tipo` (liquid or powder) flag is computed (`SizeParser.KindOf`) but
  nothing uses it, so no property is stated about it.
- `Overrides.EditMargin` takes a number. The route's `float(...)`
  conversion of the request field, and its failure, are not modelled.

## Findings

| source | as written | input that shows it | evidently intended | confidence | as-written member | corrected member |
|---|---|---|---|---|---|---|
| app.py:166 | `pd.to_numeric(cell, errors='coerce') or 0.0` keeps NaN, because NaN is truthy. The test `costo <= 0.0001` is then false, so the row is neither backfilled from its master price nor dropped, and is priced NaN. | A cost sheet row with a name and a blank (or non-numeric) cost cell. | A cost cell without a number counts as 0.0, so the row takes its base name's master price or is dropped. | not executed | `CostTable.BlankCostIsNaN` | `CostTable.ListedCost` |

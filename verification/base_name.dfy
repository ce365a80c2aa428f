/** The base name of a product: its upper-cased name with one trailing size
    suffix removed, as `re.sub(r'\s*X?\s*\d+\.?\d*\s*(KG|G|L|LT|GALON|ML)\s*$', '', n).strip()`
    computes it. Products that differ only in their size share a base name. */
module BaseNames {
  import opened Strings
  import opened Collections

  // ---- The suffix grammar, piece by piece, over index ranges of `s` ----

  predicate SpacesIn(s: string, i: int, j: int)
    requires 0 <= i <= j <= |s|
  {
    forall k :: i <= k < j ==> IsSpace(s[k])
  }

  predicate DigitsIn(s: string, i: int, j: int)
    requires 0 <= i <= j <= |s|
  {
    forall k :: i <= k < j ==> IsDigit(s[k])
  }

  /** `s[i..j]` is `\s*X?\s*`: blanks with at most one `X` among them. */
  ghost predicate LeadSpan(s: string, i: int, j: int)
    requires 0 <= i <= j <= |s|
  {
    exists p :: i <= p <= j && SpacesIn(s, i, p) && (SpacesIn(s, p, j) || (p < j && s[p] == 'X' && SpacesIn(s, p + 1, j)))
  }

  /** `s[i..j]` is `\d+\.?\d*`: digits, then optionally a dot and more digits. */
  ghost predicate NumberSpan(s: string, i: int, j: int)
    requires 0 <= i <= j <= |s|
  {
    exists d :: i < d <= j && DigitsIn(s, i, d) && (d == j || (s[d] == '.' && DigitsIn(s, d + 1, j)))
  }

  /** The unit alternatives `KG|G|L|LT|GALON|ML`. */
  predicate IsUnit(u: string) {
    u == "KG" || u == "G" || u == "L" || u == "LT" || u == "GALON" || u == "ML"
  }

  /** `s[i..]` is `\s*(KG|G|L|LT|GALON|ML)\s*` up to the end of the string. */
  ghost predicate TailSpan(s: string, i: int)
    requires 0 <= i <= |s|
  {
    exists x, y :: i <= x <= y <= |s| && SpacesIn(s, i, x) && IsUnit(s[x..y]) && SpacesIn(s, y, |s|)
  }

  /** `s[i..]`, the whole rest of `s`, is a size suffix: lead, number, tail. */
  ghost predicate SuffixFrom(s: string, i: int)
    requires 0 <= i <= |s|
  {
    exists a, b :: i <= a <= b <= |s| && LeadSpan(s, i, a) && NumberSpan(s, a, b) && TailSpan(s, b)
  }

  // ---- A deterministic recognizer for the same language ----

  predicate IsNumberChar(c: char) {
    IsDigit(c) || c == '.'
  }

  /** Index of the first character at or after `i` that is neither a digit nor a dot. */
  function NumberEnd(s: string, i: nat): (j: nat)
    requires i <= |s|
    ensures i <= j <= |s|
    ensures forall k :: i <= k < j ==> IsNumberChar(s[k])
    ensures j < |s| ==> !IsNumberChar(s[j])
    decreases |s| - i
  {
    if i < |s| && IsNumberChar(s[i]) then NumberEnd(s, i + 1) else i
  }

  lemma {:induction false} NumberEndAt(s: string, i: nat, j: nat)
    requires i <= j <= |s|
    requires forall k :: i <= k < j ==> IsNumberChar(s[k])
    requires j < |s| ==> !IsNumberChar(s[j])
    ensures NumberEnd(s, i) == j
    decreases j - i
  {
    if i < j {
      NumberEndAt(s, i + 1, j);
    }
  }

  /** Where `\s*X?\s*` stops when run greedily from `i`. */
  function LeadEnd(s: string, i: nat): (a: nat)
    requires i <= |s|
    ensures i <= a <= |s|
  {
    var p := SpaceEnd(s, i);
    if p < |s| && s[p] == 'X' then SpaceEnd(s, p + 1) else p
  }

  /** The digit/dot run `s[a..b]` has the shape `\d+\.?\d*`. */
  predicate NumberShaped(s: string, a: nat, b: nat)
    requires a <= b <= |s|
  {
    var d := DigitEnd(s, a);
    a < d && (d >= b || (s[d] == '.' && DigitEnd(s, d + 1) >= b))
  }

  /** Greedy left-to-right check that `s[i..]` is a size suffix. */
  predicate MatchesFrom(s: string, i: nat)
    requires i <= |s|
  {
    var a := LeadEnd(s, i);
    var b := NumberEnd(s, a);
    var x := SpaceEnd(s, b);
    var y := WordEnd(s, x);
    NumberShaped(s, a, b) && IsUnit(s[x..y]) && SpaceEnd(s, y) == |s|
  }

  lemma GreedyLead(s: string, i: nat)
    requires i <= |s|
    ensures LeadSpan(s, i, LeadEnd(s, i))
  {
    var p := SpaceEnd(s, i);
    var a := LeadEnd(s, i);
    assert SpacesIn(s, i, p);
    if p < |s| && s[p] == 'X' {
      assert SpacesIn(s, p + 1, a);
    } else {
      assert SpacesIn(s, p, a);
    }
  }

  lemma GreedyNumber(s: string, a: nat)
    requires a <= |s| && NumberShaped(s, a, NumberEnd(s, a))
    ensures NumberSpan(s, a, NumberEnd(s, a))
  {
    var b := NumberEnd(s, a);
    var d := DigitEnd(s, a);
    assert d <= b;
    if d < b {
      assert s[d] == '.';
      var e := DigitEnd(s, d + 1);
      assert e == b;
      assert DigitsIn(s, d + 1, b);
    }
    assert DigitsIn(s, a, d);
  }

  lemma GreedyTail(s: string, b: nat)
    requires b <= |s|
    requires var x := SpaceEnd(s, b); var y := WordEnd(s, x); IsUnit(s[x..y]) && SpaceEnd(s, y) == |s|
    ensures TailSpan(s, b)
  {
    var x := SpaceEnd(s, b);
    var y := WordEnd(s, x);
    assert SpacesIn(s, b, x) && SpacesIn(s, y, |s|);
  }

  lemma RecognizedIsSuffix(s: string, i: nat)
    requires i <= |s| && MatchesFrom(s, i)
    ensures SuffixFrom(s, i)
  {
    var a := LeadEnd(s, i);
    var b := NumberEnd(s, a);
    GreedyLead(s, i);
    GreedyNumber(s, a);
    GreedyTail(s, b);
  }

  /** Any lead followed by a non-blank that is not `X` is exactly what the greedy lead scan takes. */
  lemma LeadIsGreedy(s: string, i: nat, a: nat)
    requires i <= a < |s| && LeadSpan(s, i, a) && IsDigit(s[a])
    ensures LeadEnd(s, i) == a
  {
    var p :| i <= p <= a && SpacesIn(s, i, p) && (SpacesIn(s, p, a) || (p < a && s[p] == 'X' && SpacesIn(s, p + 1, a)));
    if SpacesIn(s, p, a) {
      SpaceEndAt(s, i, a);
    } else {
      SpaceEndAt(s, i, p);
      SpaceEndAt(s, p + 1, a);
    }
  }

  lemma UnitIsLetters(w: string)
    requires IsUnit(w)
    ensures |w| > 0 && forall k :: 0 <= k < |w| ==> 'A' <= w[k] <= 'Z'
  {
  }

  /** A tail is exactly what the greedy blanks-word-blanks scan accepts. */
  lemma TailIsGreedy(s: string, b: nat)
    requires b <= |s| && TailSpan(s, b)
    ensures b < |s| && !IsNumberChar(s[b])
    ensures var x := SpaceEnd(s, b); var y := WordEnd(s, x); IsUnit(s[x..y]) && SpaceEnd(s, y) == |s|
  {
    var x, y :| b <= x <= y <= |s| && SpacesIn(s, b, x) && IsUnit(s[x..y]) && SpacesIn(s, y, |s|);
    UnitIsLetters(s[x..y]);
    assert forall k :: x <= k < y ==> 'A' <= s[k] <= 'Z' by {
      forall k | x <= k < y ensures 'A' <= s[k] <= 'Z' { assert s[k] == s[x..y][k - x]; }
    }
    assert !IsNumberChar(s[b]) by { assert b < x ==> IsSpace(s[b]); }
    SpaceEndAt(s, b, x);
    WordEndAt(s, x, y);
    SpaceEndAt(s, y, |s|);
  }

  /** A number span followed by a tail is exactly the greedy digit/dot run, and has its shape. */
  lemma NumberIsGreedy(s: string, a: nat, b: nat)
    requires a <= b < |s| && NumberSpan(s, a, b) && !IsNumberChar(s[b])
    ensures NumberEnd(s, a) == b && NumberShaped(s, a, b)
    ensures IsDigit(s[a])
  {
    var d :| a < d <= b && DigitsIn(s, a, d) && (d == b || (s[d] == '.' && DigitsIn(s, d + 1, b)));
    NumberEndAt(s, a, b);
    if d == b {
      DigitEndAt(s, a, b);
    } else {
      DigitEndAt(s, a, d);
      DigitEndAt(s, d + 1, b);
    }
  }

  lemma SuffixIsRecognized(s: string, i: nat)
    requires i <= |s| && SuffixFrom(s, i)
    ensures MatchesFrom(s, i)
  {
    var a, b :| i <= a <= b <= |s| && LeadSpan(s, i, a) && NumberSpan(s, a, b) && TailSpan(s, b);
    TailIsGreedy(s, b);
    NumberIsGreedy(s, a, b);
    LeadIsGreedy(s, i, a);
  }

  /** The greedy recognizer accepts exactly the suffix grammar. */
  lemma RecognizerIsExact(s: string, i: nat)
    requires i <= |s|
    ensures MatchesFrom(s, i) <==> SuffixFrom(s, i)
  {
    if MatchesFrom(s, i) { RecognizedIsSuffix(s, i); }
    if SuffixFrom(s, i) { SuffixIsRecognized(s, i); }
  }

  // ---- re.sub with a `$`-anchored pattern: the leftmost start that matches to the end ----

  /** `i` is where `re.sub` starts the replaced text: the first index from
      which the rest of `s` is a size suffix. */
  ghost predicate LeastSuffixStart(s: string, i: int) {
    && 0 <= i <= |s|
    && SuffixFrom(s, i)
    && forall k :: 0 <= k < i ==> !SuffixFrom(s, k)
  }

  /** The first start position whose suffix the recognizer accepts. */
  function FirstSuffixStart(s: string): Option<nat> {
    FirstFrom(StartTest(s), 0, |s|)
  }

  /** The recognizer as a test on start positions of `s`. */
  function StartTest(s: string): nat -> bool {
    (k: nat) => k <= |s| && MatchesFrom(s, k)
  }

  /** The scan finds the leftmost start whose rest is in the suffix grammar,
      and finds none exactly when no start has a suffix. */
  lemma FirstSuffixStartIsLeast(s: string)
    ensures FirstSuffixStart(s).Some? ==> LeastSuffixStart(s, FirstSuffixStart(s).value)
    ensures FirstSuffixStart(s).None? ==> forall k :: 0 <= k <= |s| ==> !SuffixFrom(s, k)
    ensures forall i :: LeastSuffixStart(s, i) ==> FirstSuffixStart(s) == Some(i)
  {
    forall k: nat | k <= |s| ensures StartTest(s)(k) <==> SuffixFrom(s, k) {
      RecognizerIsExact(s, k);
    }
    forall i | LeastSuffixStart(s, i) ensures FirstSuffixStart(s) == Some(i) {
      var r := FirstSuffixStart(s);
      assert r.Some? && r.value <= i;
      assert !(r.value < i);
    }
  }

  /** The base name: the text before the leftmost size suffix, stripped; a
      name without a size suffix is only stripped. */
  function BaseName(s: string): (b: string)
    ensures forall i :: LeastSuffixStart(s, i) ==> b == Strip(s[..i])
    ensures (forall i :: 0 <= i <= |s| ==> !SuffixFrom(s, i)) ==> b == Strip(s)
    ensures |b| <= |s|
    ensures |b| > 0 ==> !IsSpace(b[0]) && !IsSpace(b[|b| - 1])
  {
    FirstSuffixStartIsLeast(s);
    match FirstSuffixStart(s)
    case Some(i) => Strip(s[..i])
    case None => Strip(s)
  }

  // ---- A worked example: a name carrying two sizes ----

  const TwoSizes: string := "A 5KG 1KG"
  const OneSize: string := "A 5KG"

  lemma TwoSizesFrom5()
    ensures MatchesFrom(TwoSizes, 5)
  {
    var s := TwoSizes;
    assert s[5] == ' ' && s[6] == '1' && s[7] == 'K' && s[8] == 'G';
    SpaceEndAt(s, 5, 6); DigitEndAt(s, 6, 7); NumberEndAt(s, 6, 7);
    SpaceEndAt(s, 7, 7); WordEndAt(s, 7, 9); SpaceEndAt(s, 9, 9);
    assert s[7..9] == "KG";
  }

  lemma TwoSizesNotFrom1Or2()
    ensures !MatchesFrom(TwoSizes, 1) && !MatchesFrom(TwoSizes, 2)
  {
    var s := TwoSizes;
    assert s[1] == ' ' && s[2] == '5' && s[3] == 'K' && s[4] == 'G' && s[5] == ' ' && s[6] == '1';
    SpaceEndAt(s, 1, 2); SpaceEndAt(s, 2, 2); DigitEndAt(s, 2, 3); NumberEndAt(s, 2, 3);
    SpaceEndAt(s, 3, 3); WordEndAt(s, 3, 5); SpaceEndAt(s, 5, 6);
  }

  lemma TwoSizesNotFrom0Or3Or4()
    ensures !MatchesFrom(TwoSizes, 0) && !MatchesFrom(TwoSizes, 3) && !MatchesFrom(TwoSizes, 4)
  {
    var s := TwoSizes;
    assert s[0] == 'A' && s[3] == 'K' && s[4] == 'G';
    SpaceEndAt(s, 0, 0); SpaceEndAt(s, 3, 3); SpaceEndAt(s, 4, 4);
    DigitEndAt(s, 0, 0); DigitEndAt(s, 3, 3); DigitEndAt(s, 4, 4);
  }

  lemma TwoSizesFirst()
    ensures FirstSuffixStart(TwoSizes) == Some(5)
  {
    var p := StartTest(TwoSizes);
    TwoSizesFrom5();
    TwoSizesNotFrom1Or2();
    TwoSizesNotFrom0Or3Or4();
    assert p(5) && !p(0) && !p(1) && !p(2) && !p(3) && !p(4);
    assert FirstFrom(p, 5, 9) == Some(5);
    assert FirstFrom(p, 4, 9) == Some(5);
    assert FirstFrom(p, 3, 9) == Some(5);
    assert FirstFrom(p, 2, 9) == Some(5);
    assert FirstFrom(p, 1, 9) == Some(5);
  }

  lemma OneSizeFirst()
    ensures FirstSuffixStart(OneSize) == Some(1)
  {
    var t := OneSize;
    assert t[0] == 'A' && t[1] == ' ' && t[2] == '5' && t[3] == 'K' && t[4] == 'G';
    SpaceEndAt(t, 1, 2); SpaceEndAt(t, 0, 0); DigitEndAt(t, 0, 0); DigitEndAt(t, 2, 3); NumberEndAt(t, 2, 3);
    SpaceEndAt(t, 3, 3); WordEndAt(t, 3, 5); SpaceEndAt(t, 5, 5);
    assert t[3..5] == "KG";
    var p := StartTest(t);
    assert p(1) && !p(0);
    assert FirstFrom(p, 1, 5) == Some(1);
  }

  /** The base name is the strip of the text before the first recognized suffix. */
  lemma BaseNameAt(s: string, i: nat)
    requires FirstSuffixStart(s) == Some(i)
    ensures i <= |s| && BaseName(s) == Strip(s[..i])
  {
  }

  lemma OneSizeIsTrimmed()
    ensures TwoSizes[..5] == OneSize && Strip(OneSize) == OneSize
  {
    StripOfTrimmed(OneSize);
  }

  lemma LetterIsTrimmed()
    ensures OneSize[..1] == "A" && Strip("A") == "A"
  {
    StripOfTrimmed("A");
  }

  lemma BaseNameOfTwoSizes()
    ensures BaseName(TwoSizes) == OneSize
  {
    TwoSizesFirst();
    BaseNameAt(TwoSizes, 5);
    OneSizeIsTrimmed();
  }

  lemma BaseNameOfOneSize()
    ensures BaseName(OneSize) == "A"
  {
    OneSizeFirst();
    BaseNameAt(OneSize, 1);
    LetterIsTrimmed();
  }

  /** Removing a suffix can expose another: the base name of a base name is
      not always the base name. */
  lemma BaseNameNotIdempotent()
    ensures BaseName(BaseName(TwoSizes)) != BaseName(TwoSizes)
  {
    BaseNameOfTwoSizes();
    BaseNameOfOneSize();
  }
}

/** `detectar_info`: the package size in kilograms and the hazard flag read
    from a product's free-text name. */
module SizeParser {
  import opened Strings
  import opened Collections

  /** The regular expression `(\d+)\s*KG` matches `s` from index `i`, its
      group `(\d+)` spanning `s[i..j]`. */
  ghost predicate KgMatch(s: string, i: int, j: int) {
    && 0 <= i < j <= |s|
    && AllDigits(s[i..j])
    && exists k :: j <= k <= |s| - 2 && AllSpace(s[j..k]) && s[k..k + 2] == "KG"
  }

  /** `re.search` reports the match that starts furthest left. */
  ghost predicate FirstKgMatch(s: string, i: int, j: int) {
    && KgMatch(s, i, j)
    && forall i', j' :: 0 <= i' < i ==> !KgMatch(s, i', j')
  }

  /** Whether the digits greedily taken from `i` are followed by `\s*KG`. */
  predicate KgAfterDigits(s: string, i: nat)
    requires i <= |s|
  {
    var k := SpaceEnd(s, DigitEnd(s, i));
    k + 2 <= |s| && s[k..k + 2] == "KG"
  }

  /** A match from `i` is exactly the greedy one: its group is the whole
      digit run starting at `i`, and the blanks after it are all skipped. */
  lemma KgMatchIsGreedy(s: string, i: nat, j: int)
    requires KgMatch(s, i, j)
    ensures j == DigitEnd(s, i)
    ensures KgAfterDigits(s, i)
  {
    var k :| j <= k <= |s| - 2 && AllSpace(s[j..k]) && s[k..k + 2] == "KG";
    assert forall m :: i <= m < j ==> IsDigit(s[m]) by {
      forall m | i <= m < j ensures IsDigit(s[m]) { assert s[m] == s[i..j][m - i]; }
    }
    assert forall m :: j <= m < k ==> IsSpace(s[m]) by {
      forall m | j <= m < k ensures IsSpace(s[m]) { assert s[m] == s[j..k][m - j]; }
    }
    assert s[k] == 'K' by { assert s[k] == s[k..k + 2][0]; }
    assert !IsDigit(s[j]) by {
      assert j < k ==> IsSpace(s[j]);
    }
    DigitEndAt(s, i, j);
    assert !IsSpace(s[k]);
    SpaceEndAt(s, j, k);
  }

  lemma GreedyIsKgMatch(s: string, i: nat)
    requires i < |s| && IsDigit(s[i]) && KgAfterDigits(s, i)
    ensures KgMatch(s, i, DigitEnd(s, i))
  {
    var j := DigitEnd(s, i);
    var k := SpaceEnd(s, j);
    assert AllDigits(s[i..j]) by {
      forall m | 0 <= m < j - i ensures IsDigit(s[i..j][m]) { assert s[i..j][m] == s[i + m]; }
    }
    assert j <= k <= |s| - 2 && AllSpace(s[j..k]) && s[k..k + 2] == "KG";
  }

  /** The leftmost match of `(\d+)\s*KG` at or after `from`, as the bounds of
      its group, scanning start positions left to right as `re.search` does. */
  function ScanKg(s: string, from: nat): (r: Option<(nat, nat)>)
    requires from <= |s|
    ensures r.Some? ==> from <= r.value.0 && KgMatch(s, r.value.0, r.value.1)
    ensures r.Some? ==> forall i, j :: from <= i < r.value.0 ==> !KgMatch(s, i, j)
    ensures r.None? ==> forall i, j :: from <= i ==> !KgMatch(s, i, j)
    decreases |s| - from
  {
    if from == |s| then None
    else
      var next := ScanKg(s, from + 1);
      assert forall j :: !KgMatch(s, from, j) <== !(IsDigit(s[from]) && KgAfterDigits(s, from)) by {
        forall j | KgMatch(s, from, j) ensures IsDigit(s[from]) && KgAfterDigits(s, from) {
          KgMatchIsGreedy(s, from, j);
          assert s[from] == s[from..j][0];
        }
      }
      if IsDigit(s[from]) && KgAfterDigits(s, from) then
        GreedyIsKgMatch(s, from);
        Some((from, DigitEnd(s, from)))
      else next
  }

  /** The group of a match is determined by where the match starts. */
  lemma KgGroupUnique(s: string, i: nat, j: int, j': int)
    requires KgMatch(s, i, j) && KgMatch(s, i, j')
    ensures j == j'
  {
    KgMatchIsGreedy(s, i, j);
    KgMatchIsGreedy(s, i, j');
  }

  /** The literal-phrase guesses tried, in this order, when no `<digits> KG` appears. */
  function FallbackKg(u: string): real {
    if Contains(u, "1LT") || Contains(u, "1 LT") then 1.0
    else if Contains(u, "GALON") then 3.785
    else if Contains(u, "250ML") then 0.25
    else 1.0
  }

  /** Package size in kilograms: the number of the leftmost `<digits>\s*KG`
      in the upper-cased name, else the literal-phrase fallback. */
  function DetectKg(name: string): (kg: real)
    ensures forall i, j :: FirstKgMatch(Upper(name), i, j) ==>
              AllDigits(Upper(name)[i..j]) && kg == DigitsValue(Upper(name)[i..j]) as real
    ensures (forall i, j :: !KgMatch(Upper(name), i, j)) ==> kg == FallbackKg(Upper(name))
    ensures kg >= 0.0
    ensures kg == 0.0 ==> exists i, j :: FirstKgMatch(Upper(name), i, j) && DigitsValue(Upper(name)[i..j]) == 0
  {
    var u := Upper(name);
    match ScanKg(u, 0)
    case Some((i, j)) =>
      assert FirstKgMatch(u, i, j);
      assert forall i', j' :: FirstKgMatch(u, i', j') ==> i' == i && j' == j by {
        forall i', j' | FirstKgMatch(u, i', j') ensures i' == i && j' == j {
          KgGroupUnique(u, i, j, j');
        }
      }
      DigitsValue(u[i..j]) as real
    case None => FallbackKg(u)
  }

  /** The words that mark a product as hazardous (acids and ammonia). */
  const HazardWords: seq<string> := ["SULFURICO", "NITRICO", "CLORHIDRICO", "AMONIACO"]

  /** The `peligroso` flag: the upper-cased name mentions a hazard word. */
  predicate IsHazardous(name: string) {
    exists w :: w in HazardWords && Contains(Upper(name), w)
  }

  /** The words that mark a product as a liquid. */
  const LiquidWords: seq<string> := ["LIQ", "ACIDO", "JARABE", "ESENCIA", "SOLUCION"]

  /** The `tipo` of a product. */
  datatype Kind = Liquid | Powder

  function KindOf(name: string): Kind {
    if exists w :: w in LiquidWords && Contains(Upper(name), w) then Liquid else Powder
  }

  /** What `detectar_info` returns for a name: size in kilograms, kind, hazard flag. */
  datatype Info = Info(kg: real, kind: Kind, hazardous: bool)

  function DetectInfo(name: string): (info: Info)
    ensures info.kg >= 0.0
    ensures var u := Upper(name);
            info.hazardous <==>
              Contains(u, "SULFURICO") || Contains(u, "NITRICO") || Contains(u, "CLORHIDRICO") || Contains(u, "AMONIACO")
    ensures var u := Upper(name);
            info.kind == Liquid <==>
              Contains(u, "LIQ") || Contains(u, "ACIDO") || Contains(u, "JARABE") || Contains(u, "ESENCIA") || Contains(u, "SOLUCION")
  {
    Info(DetectKg(name), KindOf(name), IsHazardous(name))
  }

  /** `detectar_info` upper-cases the name first, so letter case never
      changes what it detects. */
  lemma DetectInfoIgnoresCase(name: string)
    ensures DetectInfo(Upper(name)) == DetectInfo(name)
    ensures DetectInfo(Lower(name)) == DetectInfo(name)
  {
    assert Upper(Upper(name)) == Upper(name);
    assert Upper(Lower(name)) == Upper(name);
  }
}

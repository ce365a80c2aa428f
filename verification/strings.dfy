/** The handful of Python `str` operations the pricing pipeline relies on,
    over `seq<char>`: `isspace`, `upper`/`lower` (ASCII letters only),
    `strip`, `in` (substring), `split()` and the `<` ordering of strings. */
module Strings {

  /** The characters `str.isspace` accepts; `strip()`, `split()` and the
      regular-expression class `\s` all use this set. */
  predicate IsSpace(c: char) {
    || c == ' '
    || ('\t' <= c <= '\r')
    || ('\U{1C}' <= c <= '\U{1F}')
    || c == '\U{85}' || c == '\U{A0}' || c == '\U{1680}'
    || ('\U{2000}' <= c <= '\U{200A}')
    || c == '\U{2028}' || c == '\U{2029}' || c == '\U{202F}'
    || c == '\U{205F}' || c == '\U{3000}'
  }

  predicate IsDigit(c: char) {
    '0' <= c <= '9'
  }

  predicate AllSpace(s: string) {
    forall k :: 0 <= k < |s| ==> IsSpace(s[k])
  }

  predicate AllDigits(s: string) {
    forall k :: 0 <= k < |s| ==> IsDigit(s[k])
  }

  function DigitValue(c: char): nat
    requires IsDigit(c)
  {
    c as int - '0' as int
  }

  /** The number a run of decimal digits spells (Python's `int(ds)`). */
  function DigitsValue(ds: string): nat
    requires AllDigits(ds)
  {
    if |ds| == 0 then 0 else DigitsValue(ds[..|ds| - 1]) * 10 + DigitValue(ds[|ds| - 1])
  }

  /** `str(n)` for a natural number. */
  function NatText(n: nat): (ds: string)
    ensures |ds| > 0 && AllDigits(ds)
    ensures DigitsValue(ds) == n
  {
    var last := ['0' + (n % 10) as char];
    if n < 10 then last else
      var front := NatText(n / 10);
      var ds := front + last;
      assert ds[..|ds| - 1] == front;
      ds
  }

  function UpperChar(c: char): char {
    if 'a' <= c <= 'z' then (c as int - 32) as char else c
  }

  function LowerChar(c: char): char {
    if 'A' <= c <= 'Z' then (c as int + 32) as char else c
  }

  /** `s.upper()`, on ASCII letters: exactly the lower-case letters change,
      each to its capital, and no lower-case letter is left. */
  function Upper(s: string): (r: string)
    ensures |r| == |s|
    ensures forall k :: 0 <= k < |s| ==> r[k] == UpperChar(s[k])
    ensures forall k :: 0 <= k < |s| ==> (r[k] != s[k] <==> 'a' <= s[k] <= 'z')
    ensures forall k :: 0 <= k < |s| ==> !('a' <= r[k] <= 'z')
  {
    seq(|s|, k requires 0 <= k < |s| => UpperChar(s[k]))
  }

  /** `s.lower()`, on ASCII letters: exactly the capitals change, each to
      its lower-case letter, and no capital is left. */
  function Lower(s: string): (r: string)
    ensures |r| == |s|
    ensures forall k :: 0 <= k < |s| ==> r[k] == LowerChar(s[k])
    ensures forall k :: 0 <= k < |s| ==> (r[k] != s[k] <==> 'A' <= s[k] <= 'Z')
    ensures forall k :: 0 <= k < |s| ==> !('A' <= r[k] <= 'Z')
  {
    seq(|s|, k requires 0 <= k < |s| => LowerChar(s[k]))
  }

  /** Changing case forgets the case it started from: upper-casing or
      lower-casing twice, or after the other, is doing it once. */
  lemma CaseFolds(s: string)
    ensures Upper(Upper(s)) == Upper(s) && Upper(Lower(s)) == Upper(s)
    ensures Lower(Lower(s)) == Lower(s) && Lower(Upper(s)) == Lower(s)
  {
    assert Upper(Upper(s)) == Upper(s);
    assert Upper(Lower(s)) == Upper(s);
    assert Lower(Lower(s)) == Lower(s);
    assert Lower(Upper(s)) == Lower(s);
  }

  /** Index of the first non-space character at or after `i` (or `|s|`). */
  function SpaceEnd(s: string, i: nat): (j: nat)
    requires i <= |s|
    ensures i <= j <= |s|
    ensures forall k :: i <= k < j ==> IsSpace(s[k])
    ensures AllSpace(s[i..j])
    ensures j < |s| ==> !IsSpace(s[j])
    decreases |s| - i
  {
    if i < |s| && IsSpace(s[i]) then SpaceEnd(s, i + 1) else i
  }

  /** `SpaceEnd` is characterized by its contract: a blank run ending at a non-blank. */
  lemma {:induction false} SpaceEndAt(s: string, i: nat, j: nat)
    requires i <= j <= |s|
    requires forall k :: i <= k < j ==> IsSpace(s[k])
    requires j < |s| ==> !IsSpace(s[j])
    ensures SpaceEnd(s, i) == j
    decreases j - i
  {
    if i < j {
      SpaceEndAt(s, i + 1, j);
    }
  }

  /** Index of the first non-digit at or after `i` (or `|s|`). */
  function DigitEnd(s: string, i: nat): (j: nat)
    requires i <= |s|
    ensures i <= j <= |s|
    ensures forall k :: i <= k < j ==> IsDigit(s[k])
    ensures j < |s| ==> !IsDigit(s[j])
    decreases |s| - i
  {
    if i < |s| && IsDigit(s[i]) then DigitEnd(s, i + 1) else i
  }

  lemma {:induction false} DigitEndAt(s: string, i: nat, j: nat)
    requires i <= j <= |s|
    requires forall k :: i <= k < j ==> IsDigit(s[k])
    requires j < |s| ==> !IsDigit(s[j])
    ensures DigitEnd(s, i) == j
    decreases j - i
  {
    if i < j {
      DigitEndAt(s, i + 1, j);
    }
  }

  /** Index just past the last non-space character (or 0). */
  function LastNonSpaceEnd(s: string): (j: nat)
    ensures j <= |s|
    ensures forall k :: j <= k < |s| ==> IsSpace(s[k])
    ensures AllSpace(s[j..])
    ensures j > 0 ==> !IsSpace(s[j - 1])
  {
    if |s| > 0 && IsSpace(s[|s| - 1]) then LastNonSpaceEnd(s[..|s| - 1]) else |s|
  }

  /** `s.strip()`: the infix left when leading and trailing white space is removed. */
  function Strip(s: string): (r: string)
    ensures |r| <= |s|
    ensures |r| == 0 <==> AllSpace(s)
    ensures |r| > 0 ==> !IsSpace(r[0]) && !IsSpace(r[|r| - 1])
    ensures |r| > 0 ==> exists i :: 0 <= i <= |s| - |r| && r == s[i..i + |r|] && AllSpace(s[..i]) && AllSpace(s[i + |r|..])
  {
    var i := SpaceEnd(s, 0);
    if i == |s| then [] else
      var j := LastNonSpaceEnd(s);
      assert i < j by {
        assert !IsSpace(s[i]);
      }
      var r := s[i..j];
      assert AllSpace(s[..i]) by { assert s[..i] == s[0..i]; }
      assert r[0] == s[i] && r[|r| - 1] == s[j - 1];
      r
  }
  /** A string without blanks at either end is its own strip. */
  lemma StripOfTrimmed(s: string)
    requires |s| > 0 ==> !IsSpace(s[0]) && !IsSpace(s[|s| - 1])
    ensures Strip(s) == s
  {
    if |s| > 0 {
      SpaceEndAt(s, 0, 0);
    }
  }

  /** Stripping twice strips no more than stripping once. */
  lemma StripIdempotent(s: string)
    ensures Strip(Strip(s)) == Strip(s)
  {
    StripOfTrimmed(Strip(s));
  }


  lemma {:induction false} LastNonSpaceEndAt(s: string, j: nat)
    requires j <= |s|
    requires forall k :: j <= k < |s| ==> IsSpace(s[k])
    requires j > 0 ==> !IsSpace(s[j - 1])
    ensures LastNonSpaceEnd(s) == j
    decreases |s|
  {
    if j < |s| {
      var front := s[..|s| - 1];
      assert forall k :: j <= k < |front| ==> front[k] == s[k];
      LastNonSpaceEndAt(front, j);
    }
  }

  /** The strip of `s` is `s[i..j]` whenever only blanks lie outside `i..j`
      and `s[i..j]` has no blank at either end. */
  lemma StripIs(s: string, i: nat, j: nat)
    requires i <= j <= |s|
    requires forall k :: 0 <= k < i ==> IsSpace(s[k])
    requires forall k :: j <= k < |s| ==> IsSpace(s[k])
    requires i < j ==> !IsSpace(s[i]) && !IsSpace(s[j - 1])
    ensures Strip(s) == s[i..j]
  {
    if i < j {
      SpaceEndAt(s, 0, i);
      LastNonSpaceEndAt(s, j);
    } else {
      assert AllSpace(s) by {
        forall k | 0 <= k < |s| ensures IsSpace(s[k]) {
          if k < i {} else {}
        }
      }
    }
  }

  /** Upper-casing and stripping commute, since no letter is a blank. */
  /** Changing case keeps every character's blankness. */
  lemma CaseKeepsSpace(s: string)
    ensures forall k :: 0 <= k < |s| ==> (IsSpace(Upper(s)[k]) <==> IsSpace(s[k]))
    ensures forall k :: 0 <= k < |s| ==> (IsSpace(Lower(s)[k]) <==> IsSpace(s[k]))
  {
  }

  /** Where the strip of `s` starts and ends. */
  lemma StripBounds(s: string) returns (i: nat, j: nat)
    ensures i <= j <= |s| && Strip(s) == s[i..j]
    ensures forall k :: 0 <= k < i ==> IsSpace(s[k])
    ensures forall k :: j <= k < |s| ==> IsSpace(s[k])
    ensures i < j ==> !IsSpace(s[i]) && !IsSpace(s[j - 1])
  {
    i := SpaceEnd(s, 0);
    if i == |s| {
      j := i;
    } else {
      j := LastNonSpaceEnd(s);
      assert !IsSpace(s[i]);
    }
  }

  lemma StripLower(s: string)
    ensures Strip(Lower(s)) == Lower(Strip(s))
  {
    var l := Lower(s);
    CaseKeepsSpace(s);
    var i, j := StripBounds(s);
    StripIs(l, i, j);
    assert Lower(s[i..j]) == l[i..j];
  }

  lemma StripUpper(s: string)
    ensures Strip(Upper(s)) == Upper(Strip(s))
  {
    var u := Upper(s);
    CaseKeepsSpace(s);
    var i, j := StripBounds(s);
    StripIs(u, i, j);
    assert Upper(s[i..j]) == u[i..j];
  }



  /** An occurrence inside `s[i..k]`, seen from the slice. */
  lemma OccursInSlice(s: string, i: nat, k: nat, w: string, p: nat)
    requires i <= p && p + |w| <= k <= |s| && OccursAt(s, w, p)
    ensures OccursAt(s[i..k], w, p - i)
  {
    SliceOfSlice(s, i, k, p - i, p - i + |w|);
  }

  /** An occurrence in either part of `a + b` is an occurrence in `a + b`. */
  lemma OccursInConcat(a: string, b: string, w: string, p: nat)
    requires (p + |w| <= |a| && OccursAt(a, w, p)) || (|a| <= p && OccursAt(b, w, p - |a|))
    ensures OccursAt(a + b, w, p)
  {
    var ab := a + b;
    if p + |w| <= |a| && OccursAt(a, w, p) {
      assert ab[p..p + |w|] == a[p..p + |w|];
    } else {
      assert ab[p..p + |w|] == b[p - |a|..p - |a| + |w|];
    }
  }

  /** An occurrence of a non-empty word without blanks lies inside the strip. */
  lemma ContainsThenStripped(s: string, w: string)
    requires |w| > 0 && NoSpace(w) && Contains(s, w)
    ensures Contains(Strip(s), w)
  {
    var p: nat :| p <= |s| && OccursAt(s, w, p);
    var e := p + |w| - 1;
    assert s[p] == w[0] && s[e] == w[|w| - 1];
    var i := SpaceEnd(s, 0);
    var j := LastNonSpaceEnd(s);
    assert i <= p;
    assert e < j;
    assert Strip(s) == s[i..j];
    OccursInSlice(s, i, j, w, p);
    assert OccursAt(Strip(s), w, p - i);
  }

  /** An occurrence in the strip of `s` is an occurrence in `s`. */
  lemma StrippedThenContains(s: string, w: string)
    requires Contains(Strip(s), w)
    ensures Contains(s, w)
  {
    var i := SpaceEnd(s, 0);
    if i == |s| {
      var p: nat :| p <= |Strip(s)| && OccursAt(Strip(s), w, p);
      assert |w| == 0 && OccursAt(s, w, 0);
    } else {
      var j := LastNonSpaceEnd(s);
      assert i < j by {
        assert !IsSpace(s[i]);
      }
      assert Strip(s) == s[i..j];
      ContainsInfix(s, i, j, w);
    }
  }

  /** A non-empty word without blanks occurs in the strip of `s` exactly when it occurs in `s`. */
  lemma ContainsStripped(s: string, w: string)
    requires |w| > 0 && NoSpace(w)
    ensures Contains(Strip(s), w) <==> Contains(s, w)
  {
    if Contains(s, w) {
      ContainsThenStripped(s, w);
    }
    if Contains(Strip(s), w) {
      StrippedThenContains(s, w);
    }
  }

  lemma BlankInside(s: string, w: string, p: nat, q: nat)
    requires OccursAt(s, w, p) && p <= q < p + |w| && IsSpace(s[q])
    ensures !NoSpace(w)
  {
    assert w[q - p] == s[q];
  }

  /** An occurrence in `a + " " + b` of a word without blanks lies in `a` or in `b`. */
  lemma JoinedOccurrence(a: string, b: string, w: string, p: nat)
    requires NoSpace(w) && p <= |a + " " + b| && OccursAt(a + " " + b, w, p)
    ensures Contains(a, w) || Contains(b, w)
  {
    var j := a + " " + b;
    if p + |w| <= |a| {
      assert a[p..p + |w|] == j[p..p + |w|];
      assert OccursAt(a, w, p);
    } else if p > |a| {
      assert j[|a| + 1..|j|] == b;
      OccursInSlice(j, |a| + 1, |j|, w, p);
      assert OccursAt(b, w, p - (|a| + 1));
    } else {
      BlankInside(j, w, p, |a|);
      assert false;
    }
  }

  /** An occurrence in `a` survives joining `b` after it. */
  lemma LeftJoined(a: string, b: string, w: string)
    requires Contains(a, w)
    ensures Contains(a + " " + b, w)
  {
    var p: nat :| p <= |a| && OccursAt(a, w, p);
    OccursInConcat(a, " " + b, w, p);
    assert a + (" " + b) == a + " " + b;
    assert OccursAt(a + " " + b, w, p);
  }

  /** An occurrence in `b` survives joining `a` before it. */
  lemma RightJoined(a: string, b: string, w: string)
    requires Contains(b, w)
    ensures Contains(a + " " + b, w)
  {
    var p: nat :| p <= |b| && OccursAt(b, w, p);
    OccursInConcat(a + " ", b, w, |a + " "| + p);
    assert OccursAt(a + " " + b, w, |a| + 1 + p);
  }

  /** A word without blanks never straddles the blank joining two strings. */
  lemma ContainsJoin(a: string, b: string, w: string)
    requires NoSpace(w)
    ensures Contains(a + " " + b, w) <==> Contains(a, w) || Contains(b, w)
  {
    if Contains(a + " " + b, w) {
      var p: nat :| p <= |a + " " + b| && OccursAt(a + " " + b, w, p);
      JoinedOccurrence(a, b, w, p);
    }
    if Contains(a, w) {
      LeftJoined(a, b, w);
    }
    if Contains(b, w) {
      RightJoined(a, b, w);
    }
  }

  /** `' '.join(ws)`. */
  function Join(ws: seq<string>): string
    decreases |ws|
  {
    if |ws| == 0 then []
    else if |ws| == 1 then ws[0]
    else Join(ws[..|ws| - 1]) + " " + ws[|ws| - 1]
  }

  /** A non-empty word without blanks occurs in a blank-joined list exactly
      when it occurs in one of the list's strings. */
  lemma {:induction false} JoinContains(ws: seq<string>, w: string)
    requires |w| > 0 && NoSpace(w)
    ensures Contains(Join(ws), w) <==> exists k :: 0 <= k < |ws| && Contains(ws[k], w)
    decreases |ws|
  {
    if |ws| == 0 {
      assert !Contains(Join(ws), w);
    } else if |ws| == 1 {
      assert Contains(Join(ws), w) <==> Contains(ws[0], w);
    } else {
      var front := ws[..|ws| - 1];
      JoinContains(front, w);
      ContainsJoin(Join(front), ws[|ws| - 1], w);
      if exists k :: 0 <= k < |ws| && Contains(ws[k], w) {
        var k :| 0 <= k < |ws| && Contains(ws[k], w);
        if k < |ws| - 1 {
          assert front[k] == ws[k];
        }
      }
      if exists k :: 0 <= k < |front| && Contains(front[k], w) {
        var k :| 0 <= k < |front| && Contains(front[k], w);
        assert ws[k] == front[k];
      }
    }
  }

  /** No lower-case ASCII letter: what `upper()` leaves behind. */
  predicate NoLowerAscii(s: string) {
    forall k :: 0 <= k < |s| ==> !('a' <= s[k] <= 'z')
  }

  lemma UpperHasNoLower(s: string)
    ensures NoLowerAscii(Upper(s))
  {
  }

  lemma SliceOfSlice(s: string, i: nat, j: nat, a: nat, b: nat)
    requires i <= j <= |s| && a <= b <= j - i
    ensures s[i..j][a..b] == s[i + a..i + b]
  {
    var l, r := s[i..j][a..b], s[i + a..i + b];
    assert |l| == |r|;
    forall k | 0 <= k < |l| ensures l[k] == r[k] {
      assert l[k] == s[i + a + k];
    }
  }

  /** `t` occurs in `s` starting at index `i`. */
  predicate OccursAt(s: string, t: string, i: nat) {
    i + |t| <= |s| && s[i..i + |t|] == t
  }

  /** Python's `t in s` for strings. */
  predicate Contains(s: string, t: string) {
    exists i: nat :: i <= |s| && OccursAt(s, t, i)
  }

  /** An occurrence of a piece of `s` is an occurrence in `s`. */
  lemma ContainsInfix(s: string, a: nat, b: nat, t: string)
    requires a <= b <= |s|
    requires Contains(s[a..b], t)
    ensures Contains(s, t)
  {
    var i: nat :| i <= |s[a..b]| && OccursAt(s[a..b], t, i);
    forall k | 0 <= k < |t|
      ensures s[a + i + k] == t[k]
    {
      assert t[k] == s[a..b][i + k];
    }
    assert OccursAt(s, t, a + i);
  }

  /** Python's `<=` on strings: lexicographic by code point, a prefix first. */
  predicate StrLe(a: string, b: string)
    decreases |a|
  {
    |a| == 0 || (|b| > 0 && (a[0] < b[0] || (a[0] == b[0] && StrLe(a[1..], b[1..]))))
  }

  lemma {:induction false} StrLeTotal(a: string, b: string)
    ensures StrLe(a, b) || StrLe(b, a)
    decreases |a|
  {
    if |a| > 0 && |b| > 0 && a[0] == b[0] {
      StrLeTotal(a[1..], b[1..]);
    }
  }

  lemma {:induction false} StrLeTransitive(a: string, b: string, c: string)
    requires StrLe(a, b) && StrLe(b, c)
    ensures StrLe(a, c)
    decreases |a|
  {
    if |a| > 0 && a[0] == b[0] && b[0] == c[0] {
      StrLeTransitive(a[1..], b[1..], c[1..]);
    }
  }

  lemma {:induction false} StrLeAntisymmetric(a: string, b: string)
    requires StrLe(a, b) && StrLe(b, a)
    ensures a == b
    decreases |a|
  {
    if |a| > 0 {
      StrLeAntisymmetric(a[1..], b[1..]);
      assert a == [a[0]] + a[1..] && b == [b[0]] + b[1..];
    }
  }

  /** Index of the first space at or after `i` (or `|s|`). */
  function WordEnd(s: string, i: nat): (j: nat)
    requires i <= |s|
    ensures i <= j <= |s|
    ensures forall k :: i <= k < j ==> !IsSpace(s[k])
    ensures j < |s| ==> IsSpace(s[j])
    decreases |s| - i
  {
    if i < |s| && !IsSpace(s[i]) then WordEnd(s, i + 1) else i
  }

  lemma {:induction false} WordEndAt(s: string, i: nat, j: nat)
    requires i <= j <= |s|
    requires forall k :: i <= k < j ==> !IsSpace(s[k])
    requires j < |s| ==> IsSpace(s[j])
    ensures WordEnd(s, i) == j
    decreases j - i
  {
    if i < j {
      WordEndAt(s, i + 1, j);
    }
  }

  predicate NoSpace(w: string) {
    forall k :: 0 <= k < |w| ==> !IsSpace(w[k])
  }

  /** `s.split()`: the maximal runs of non-space characters, in order. */
  function Words(s: string): (ws: seq<string>)
    ensures forall n :: 0 <= n < |ws| ==> |ws[n]| > 0 && NoSpace(ws[n])
    ensures |ws| == 0 <==> AllSpace(s)
    decreases |s|
  {
    var a := SpaceEnd(s, 0);
    if a == |s| then
      assert AllSpace(s) by { assert s == s[0..a]; }
      []
    else
      var b := WordEnd(s, a);
      [s[a..b]] + Words(s[b..])
  }

  /** A non-empty run without blanks splits into itself. */
  lemma WordsOfWord(w: string)
    requires |w| > 0 && NoSpace(w)
    ensures Words(w) == [w]
  {
    SpaceEndAt(w, 0, 0);
    WordEndAt(w, 0, |w|);
    assert w[|w|..] == [];
    assert w[0..|w|] == w;
  }

  /** The first word of `s` starts at `a` and ends at `b`. */
  lemma WordsFrom(s: string, a: nat, b: nat)
    requires a < b <= |s| && AllSpace(s[..a]) && NoSpace(s[a..b]) && (b < |s| ==> IsSpace(s[b]))
    ensures Words(s) == [s[a..b]] + Words(s[b..])
  {
    assert forall k :: 0 <= k < a ==> s[k] == s[..a][k];
    assert forall k :: a <= k < b ==> s[k] == s[a..b][k - a];
    SpaceEndAt(s, 0, a);
    WordEndAt(s, a, b);
  }

  lemma AllSpaceConcat(a: string, b: string)
    requires AllSpace(a) && AllSpace(b)
    ensures AllSpace(a + b)
  {
    assert forall k :: |a| <= k < |a + b| ==> (a + b)[k] == b[k - |a|];
  }

  /** Leading blanks contribute no word. */
  lemma WordsAfterSpaces(sp: string, t: string)
    requires AllSpace(sp)
    ensures Words(sp + t) == Words(t)
  {
    var a' := SpaceEnd(t, 0);
    assert t[..a'] == t[0..a'];
    if a' == |t| {
      assert t == t[0..a'];
      AllSpaceConcat(sp, t);
    } else {
      WordsAfterSpacesWord(sp, t, a', WordEnd(t, a'));
    }
  }

  lemma WordsAfterSpacesWord(sp: string, t: string, a: nat, b: nat)
    requires AllSpace(sp) && a < b <= |t| && AllSpace(t[..a]) && NoSpace(t[a..b]) && (b < |t| ==> IsSpace(t[b]))
    ensures Words(sp + t) == Words(t)
  {
    var j := sp + t;
    var n := |sp|;
    assert j[..n + a] == sp + t[..a];
    AllSpaceConcat(sp, t[..a]);
    assert j[n + a..n + b] == t[a..b];
    assert j[n + b..] == t[b..];
    assert n + b < |j| ==> j[n + b] == t[b];
    WordsFrom(j, n + a, n + b);
    WordsFrom(t, a, b);
  }

  /** Splitting two texts joined by a blank splits each of them: no word
      straddles the blank, and every word keeps its place. */
  lemma {:induction false} WordsJoin(s: string, t: string)
    ensures Words(s + " " + t) == Words(s) + Words(t)
    decreases |s|
  {
    var j := s + " " + t;
    var a := SpaceEnd(s, 0);
    if a == |s| {
      assert AllSpace(s + " ") by {
        forall k | 0 <= k < |s + " "| ensures IsSpace((s + " ")[k]) {
          if k < |s| {
            assert s[k] == s[0..a][k];
          }
        }
      }
      assert j == (s + " ") + t;
      WordsAfterSpaces(s + " ", t);
    } else {
      var b := WordEnd(s, a);
      assert !IsSpace(s[a]);
      assert forall k :: 0 <= k < |s| ==> j[k] == s[k];
      assert j[|s|] == ' ';
      SpaceEndAt(j, 0, a);
      WordEndAt(j, a, b);
      assert j[a..b] == s[a..b];
      assert j[b..] == s[b..] + " " + t;
      WordsJoin(s[b..], t);
      assert Words(s) == [s[a..b]] + Words(s[b..]);
      assert Words(j) == [j[a..b]] + Words(j[b..]);
    }
  }

  /** The non-space characters of `s`, in order. */
  function NonSpaceChars(s: string): string {
    if |s| == 0 then [] else (if IsSpace(s[0]) then [] else [s[0]]) + NonSpaceChars(s[1..])
  }

  function Concat(ws: seq<string>): string {
    if |ws| == 0 then [] else ws[0] + Concat(ws[1..])
  }

  lemma {:induction false} NonSpaceCharsAppend(a: string, b: string)
    ensures NonSpaceChars(a + b) == NonSpaceChars(a) + NonSpaceChars(b)
    decreases |a|
  {
    if |a| > 0 {
      assert (a + b)[1..] == a[1..] + b;
      NonSpaceCharsAppend(a[1..], b);
    } else {
      assert a + b == b;
    }
  }

  lemma {:induction false} NonSpaceCharsOfSpaces(s: string)
    requires AllSpace(s)
    ensures NonSpaceChars(s) == []
    decreases |s|
  {
    if |s| > 0 {
      NonSpaceCharsOfSpaces(s[1..]);
    }
  }

  lemma {:induction false} NonSpaceCharsOfWord(s: string)
    requires NoSpace(s)
    ensures NonSpaceChars(s) == s
    decreases |s|
  {
    if |s| > 0 {
      NonSpaceCharsOfWord(s[1..]);
    }
  }

  lemma NonSpaceCharsAroundWord(s: string, a: nat, b: nat)
    requires a <= b <= |s|
    requires AllSpace(s[..a]) && NoSpace(s[a..b])
    ensures NonSpaceChars(s) == s[a..b] + NonSpaceChars(s[b..])
  {
    assert s == s[..a] + s[a..b] + s[b..];
    NonSpaceCharsOfSpaces(s[..a]);
    NonSpaceCharsOfWord(s[a..b]);
    NonSpaceCharsAppend(s[..a] + s[a..b], s[b..]);
    NonSpaceCharsAppend(s[..a], s[a..b]);
  }

  /** Splitting loses only white space: the words, glued back together,
      are exactly the non-space characters of the input. */
  lemma {:induction false} WordsKeepEveryNonSpace(s: string)
    ensures Concat(Words(s)) == NonSpaceChars(s)
    decreases |s|
  {
    var a := SpaceEnd(s, 0);
    if a == |s| {
      NonSpaceCharsOfSpaces(s);
    } else {
      var b := WordEnd(s, a);
      WordsKeepEveryNonSpace(s[b..]);
      assert s[..a] == s[0..a];
      NonSpaceCharsAroundWord(s, a, b);
      var ws := Words(s);
      assert ws[0] == s[a..b] && ws[1..] == Words(s[b..]);
    }
  }

  lemma ContainsInSuffix(s: string, b: nat, t: string)
    requires b <= |s| && Contains(s[b..], t)
    ensures Contains(s, t)
  {
    assert s[b..|s|] == s[b..];
    ContainsInfix(s, b, |s|, t);
  }

  /** Every word of `s` occurs in `s`. */
  lemma {:induction false} WordsOccur(s: string)
    ensures forall n :: 0 <= n < |Words(s)| ==> Contains(s, Words(s)[n])
    decreases |s|
  {
    var a := SpaceEnd(s, 0);
    if a < |s| {
      var b := WordEnd(s, a);
      var ws := Words(s);
      var rest := s[b..];
      WordsOccur(rest);
      assert ws == [s[a..b]] + Words(rest);
      assert OccursAt(s, ws[0], a);
      forall n | 1 <= n < |ws| ensures Contains(s, ws[n]) {
        assert ws[n] == Words(rest)[n - 1];
        ContainsInSuffix(s, b, ws[n]);
      }
    }
  }
}

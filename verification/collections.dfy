/** Generic shapes of the pipeline's Python loops: `next(...)` over a list,
    and a dictionary filled by a loop whose later writes overwrite earlier ones. */
module Collections {

  datatype Option<+T> = None | Some(value: T) {
    function GetOr(default: T): T {
      match this
      case Some(v) => v
      case None => default
    }
  }

  /** `next((x for x in xs if p(x)), None)`, as a position: the first element
      that passes `p`, or `None` when no element does. */
  function FirstWhere<T>(xs: seq<T>, p: T -> bool): (r: Option<nat>)
    ensures r.Some? ==> r.value < |xs| && p(xs[r.value])
    ensures r.Some? ==> forall k :: 0 <= k < r.value ==> !p(xs[k])
    ensures r.None? <==> forall k :: 0 <= k < |xs| ==> !p(xs[k])
    decreases |xs|
  {
    if |xs| == 0 then None
    else if p(xs[0]) then Some(0)
    else match FirstWhere(xs[1..], p)
      case None => None
      case Some(k) => Some(k + 1)
  }

  /** `r` is what `next(...)` over the positions of `xs` gives: the first
      position passing `p`, or `None` when none does. */
  ghost predicate IsFirstMatch<T>(xs: seq<T>, p: T -> bool, r: Option<nat>) {
    && (r.None? <==> forall k :: 0 <= k < |xs| ==> !p(xs[k]))
    && (r.Some? ==> r.value < |xs| && p(xs[r.value]) && forall k :: 0 <= k < r.value ==> !p(xs[k]))
  }

  /** At most one answer fits that description, so it pins the position. */
  lemma FirstMatchUnique<T>(xs: seq<T>, p: T -> bool, r: Option<nat>, r': Option<nat>)
    requires IsFirstMatch(xs, p, r) && IsFirstMatch(xs, p, r')
    ensures r == r'
  {
  }

  /** The least `k` in `lo..hi` (both ends included) with `p(k)`, when there is one. */
  function FirstFrom(p: nat -> bool, lo: nat, hi: nat): (r: Option<nat>)
    ensures r.Some? ==> lo <= r.value <= hi && p(r.value)
    ensures r.Some? ==> forall k :: lo <= k < r.value ==> !p(k)
    ensures r.None? <==> (forall k :: lo <= k <= hi ==> !p(k))
    decreases hi + 1 - lo
  {
    if hi < lo then None
    else if p(lo) then Some(lo)
    else if lo == hi then None
    else FirstFrom(p, lo + 1, hi)
  }

  /** `[y for x in xs for y in [f(x)] if y is not None]`: the present results, in order. */
  function FilterMap<A, B>(xs: seq<A>, f: A -> Option<B>): (ys: seq<B>)
    ensures |ys| <= |xs|
    ensures forall y :: y in ys ==> exists i :: 0 <= i < |xs| && f(xs[i]) == Some(y)
    ensures forall i :: 0 <= i < |xs| && f(xs[i]).Some? ==> f(xs[i]).value in ys
    decreases |xs|
  {
    if |xs| == 0 then []
    else
      var rest := FilterMap(xs[1..], f);
      assert forall i :: 1 <= i < |xs| ==> xs[i] == xs[1..][i - 1];
      match f(xs[0])
      case Some(y) => [y] + rest
      case None => rest
  }

  /** The comprehension over a concatenation is the two comprehensions one
      after the other, and over one element it keeps that element's result
      when there is one: so the results come in the order of `xs`, one per
      element that has a result. */
  lemma {:induction false} FilterMapConcat<A, B>(xs: seq<A>, ys: seq<A>, f: A -> Option<B>)
    ensures FilterMap(xs + ys, f) == FilterMap(xs, f) + FilterMap(ys, f)
    ensures |xs| == 1 ==> FilterMap(xs, f) == if f(xs[0]).Some? then [f(xs[0]).value] else []
    decreases |xs|
  {
    if |xs| == 0 {
      assert xs + ys == ys;
    } else {
      assert (xs + ys)[0] == xs[0];
      assert (xs + ys)[1..] == xs[1..] + ys;
      FilterMapConcat(xs[1..], ys, f);
    }
  }

  /** Index `i` is the last position of `xs` whose element passes `keep`
      with the key `key(xs[i])`. */
  ghost predicate LastWithKey<T, K>(xs: seq<T>, keep: T -> bool, key: T -> K, i: int) {
    && 0 <= i < |xs|
    && keep(xs[i])
    && forall j :: i < j < |xs| && keep(xs[j]) ==> key(xs[j]) != key(xs[i])
  }

  /** The keys of the elements of `xs` that pass `keep`. */
  ghost function KeptKeys<T, K>(xs: seq<T>, keep: T -> bool, key: T -> K): set<K> {
    set i | 0 <= i < |xs| && keep(xs[i]) :: key(xs[i])
  }

  lemma KeptKeysSnoc<T, K>(xs: seq<T>, keep: T -> bool, key: T -> K)
    requires |xs| > 0
    ensures KeptKeys(xs, keep, key)
         == KeptKeys(xs[..|xs| - 1], keep, key) + (if keep(xs[|xs| - 1]) then {key(xs[|xs| - 1])} else {})
  {
    var n := |xs| - 1;
    var front := xs[..n];
    forall k | k in KeptKeys(xs, keep, key)
      ensures k in KeptKeys(front, keep, key) + (if keep(xs[n]) then {key(xs[n])} else {})
    {
      var i :| 0 <= i < |xs| && keep(xs[i]) && key(xs[i]) == k;
      if i < n {
        assert front[i] == xs[i];
      }
    }
    forall k | k in KeptKeys(front, keep, key)
      ensures k in KeptKeys(xs, keep, key)
    {
      var i :| 0 <= i < |front| && keep(front[i]) && key(front[i]) == k;
      assert xs[i] == front[i];
    }
  }

  lemma LastWithKeyFront<T, K>(xs: seq<T>, keep: T -> bool, key: T -> K, i: int)
    requires LastWithKey(xs, keep, key, i) && i < |xs| - 1
    ensures LastWithKey(xs[..|xs| - 1], keep, key, i)
    ensures keep(xs[|xs| - 1]) ==> key(xs[|xs| - 1]) != key(xs[i])
  {
    var front := xs[..|xs| - 1];
    forall j | i < j < |front| && keep(front[j])
      ensures key(front[j]) != key(front[i])
    {
      assert front[j] == xs[j];
    }
  }

  /** The dictionary `d` a loop `for x in xs: if keep(x): d[key(x)] = val(x)`
      leaves behind, starting from `{}`. */
  function LastWins<T, K(==), V>(xs: seq<T>, keep: T -> bool, key: T -> K, val: T -> V): map<K, V>
    decreases |xs|
  {
    if |xs| == 0 then map[]
    else
      var n := |xs| - 1;
      var m := LastWins(xs[..n], keep, key, val);
      if keep(xs[n]) then m[key(xs[n]) := val(xs[n])] else m
  }

  /** Every key that some kept element carries is present, and it holds the
      value of the LAST kept element with that key. */
  lemma {:induction false} LastWinsSpec<T, K, V>(xs: seq<T>, keep: T -> bool, key: T -> K, val: T -> V)
    ensures LastWins(xs, keep, key, val).Keys == KeptKeys(xs, keep, key)
    ensures forall i :: LastWithKey(xs, keep, key, i) ==>
              key(xs[i]) in LastWins(xs, keep, key, val) && LastWins(xs, keep, key, val)[key(xs[i])] == val(xs[i])
    decreases |xs|
  {
    if |xs| > 0 {
      var n := |xs| - 1;
      var m := LastWins(xs[..n], keep, key, val);
      LastWinsSpec(xs[..n], keep, key, val);
      KeptKeysSnoc(xs, keep, key);
      var m' := LastWins(xs, keep, key, val);
      assert m' == if keep(xs[n]) then m[key(xs[n]) := val(xs[n])] else m;
      forall i | LastWithKey(xs, keep, key, i)
        ensures key(xs[i]) in m' && m'[key(xs[i])] == val(xs[i])
      {
        if i < n {
          LastWithKeyFront(xs, keep, key, i);
        }
      }
    }
  }
}

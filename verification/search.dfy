/** The `/buscar` route: the cached price list filtered by the words of a
    query, each of which must occur in the upper-cased product name. */
module Search {
  import opened Strings
  import opened Pricing

  /** The query as the route reads it: upper-cased, then stripped. */
  function Query(q: string): string {
    Strip(Upper(q))
  }

  /** Every word occurs in the upper-cased product name. */
  predicate MatchesAll(words: seq<string>, p: Product) {
    forall w :: w in words ==> Contains(Upper(p.name), w)
  }

  /** The lines of `cache` that match every word, in cache order. */
  function Filter(cache: seq<Product>, words: seq<string>): (r: seq<Product>)
    ensures forall p :: multiset(r)[p] == if MatchesAll(words, p) then multiset(cache)[p] else 0
    decreases |cache|
  {
    if |cache| == 0 then []
    else
      assert cache == [cache[0]] + cache[1..];
      (if MatchesAll(words, cache[0]) then [cache[0]] else []) + Filter(cache[1..], words)
  }

  /** Filtering a concatenation filters each part; with the one-line case
      this fixes the result's order to the cache's. */
  lemma {:induction false} FilterConcat(a: seq<Product>, b: seq<Product>, words: seq<string>)
    ensures Filter(a + b, words) == Filter(a, words) + Filter(b, words)
    decreases |a|
  {
    if |a| > 0 {
      assert (a + b)[0] == a[0];
      assert (a + b)[1..] == a[1..] + b;
      FilterConcat(a[1..], b, words);
    } else {
      assert a + b == b;
    }
  }

  /** `buscar`: the whole list for an empty query, else the lines whose
      upper-cased name contains every word of the query. */
  function Search(cache: seq<Product>, q: string): (r: seq<Product>)
    ensures |Query(q)| == 0 ==> r == cache
    ensures |Query(q)| > 0 ==> forall p :: p in r <==> p in cache && MatchesAll(Words(Query(q)), p)
    ensures forall p :: multiset(r)[p] <= multiset(cache)[p]
  {
    var u := Query(q);
    if |u| == 0 then cache else Filter(cache, Words(u))
  }

  /** Searching the result again with the same query changes nothing. */
  lemma SearchIdempotent(cache: seq<Product>, q: string)
    ensures Search(Search(cache, q), q) == Search(cache, q)
  {
    if |Query(q)| > 0 {
      FilterTwice(cache, Words(Query(q)));
    }
  }

  lemma {:induction false} FilterTwice(cache: seq<Product>, words: seq<string>)
    ensures Filter(Filter(cache, words), words) == Filter(cache, words)
    decreases |cache|
  {
    if |cache| > 0 {
      var head := if MatchesAll(words, cache[0]) then [cache[0]] else [];
      var rest := Filter(cache[1..], words);
      assert Filter(cache, words) == head + rest;
      FilterTwice(cache[1..], words);
      FilterConcat(head, rest, words);
      if MatchesAll(words, cache[0]) {
        assert Filter(head, words) == [cache[0]] + Filter(head[1..], words);
        assert head[1..] == [];
      } else {
        assert Filter(head, words) == [];
      }
    }
  }

  /** Searching for a line's own full name (in any letter case) lists it. */
  lemma SearchFindsOwnName(cache: seq<Product>, p: Product, q: string)
    requires p in cache
    requires Upper(q) == Upper(p.name)
    ensures p in Search(cache, q)
  {
    var u := Query(q);
    if |u| > 0 {
      var words := Words(u);
      WordsOccur(u);
      forall w | w in words ensures Contains(Upper(p.name), w) {
        var n :| 0 <= n < |words| && words[n] == w;
        ContainsStripped(Upper(q), w);
      }
    }
  }
}

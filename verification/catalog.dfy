/** The end of `procesar_excel`: one line per product name and size (the
    dearest in Lima wins, the first one on a tie), sorted by name. */
module Catalog {
  import opened Strings
  import opened Collections
  import opened Pricing

  // ---- Dedup: `unicos[f"{nombre}_{presentacion}"]` ----

  /** What the dedup dictionary is keyed on. The key text joins the name and
      the printed size with `_`; a printed float has no `_`, so two lines
      share a key text exactly when they share name and size. */
  datatype Key = Key(name: string, kg: real)

  function KeyOf(p: Product): Key {
    Key(p.name, p.kg)
  }

  function HasKey(k: Key): Product -> bool {
    (p: Product) => KeyOf(p) == k
  }

  /** The first position of `ps` whose line has key `k`. */
  function KeyIndex(ps: seq<Product>, k: Key): (r: Option<nat>)
    ensures r.Some? ==> r.value < |ps| && KeyOf(ps[r.value]) == k
    ensures r.Some? ==> forall i :: 0 <= i < r.value ==> KeyOf(ps[i]) != k
    ensures r.None? <==> forall i :: 0 <= i < |ps| ==> KeyOf(ps[i]) != k
  {
    FirstWhere(ps, HasKey(k))
  }

  /** One turn of the dedup loop: a new key is appended (dictionaries keep
      insertion order); a known key is replaced in place only by a line that
      is strictly dearer in Lima. */
  function Absorb(out: seq<Product>, p: Product): seq<Product> {
    match KeyIndex(out, KeyOf(p))
    case None => out + [p]
    case Some(j) => if p.priceLima > out[j].priceLima then out[j := p] else out
  }

  /** `list(unicos.values())` after the dedup loop over `ps`. */
  function Dedup(ps: seq<Product>): seq<Product>
    decreases |ps|
  {
    if |ps| == 0 then []
    else Absorb(Dedup(ps[..|ps| - 1]), ps[|ps| - 1])
  }

  ghost predicate UniqueKeys(ps: seq<Product>) {
    forall i, j :: 0 <= i < j < |ps| ==> KeyOf(ps[i]) != KeyOf(ps[j])
  }

  ghost function KeySet(ps: seq<Product>): set<Key> {
    set p | p in ps :: KeyOf(p)
  }

  /** Line `i` is the first line of its key with the highest Lima price. */
  ghost predicate FirstBest(ps: seq<Product>, i: int) {
    && 0 <= i < |ps|
    && forall k :: 0 <= k < |ps| && KeyOf(ps[k]) == KeyOf(ps[i]) ==>
         ps[k].priceLima <= ps[i].priceLima && (k < i ==> ps[k].priceLima < ps[i].priceLima)
  }

  /** Every line of `out` is the first dearest line of its key in `ps`. */
  ghost predicate AllFirstBest(out: seq<Product>, ps: seq<Product>) {
    forall j :: 0 <= j < |out| ==> exists i :: FirstBest(ps, i) && ps[i] == out[j]
  }

  lemma FirstBestSnoc(ps: seq<Product>, p: Product, i: int)
    requires FirstBest(ps, i)
    requires KeyOf(p) == KeyOf(ps[i]) ==> p.priceLima <= ps[i].priceLima
    ensures FirstBest(ps + [p], i)
  {
    var qs := ps + [p];
    forall k | 0 <= k < |qs| && KeyOf(qs[k]) == KeyOf(qs[i])
      ensures qs[k].priceLima <= qs[i].priceLima && (k < i ==> qs[k].priceLima < qs[i].priceLima)
    {
      if k < |ps| {
        assert qs[k] == ps[k];
      }
    }
  }

  lemma FirstBestLast(ps: seq<Product>, p: Product)
    requires forall k :: 0 <= k < |ps| && KeyOf(ps[k]) == KeyOf(p) ==> ps[k].priceLima < p.priceLima
    ensures FirstBest(ps + [p], |ps|)
  {
    var qs := ps + [p];
    forall k | 0 <= k < |qs| && KeyOf(qs[k]) == KeyOf(qs[|ps|])
      ensures qs[k].priceLima <= qs[|ps|].priceLima && (k < |ps| ==> qs[k].priceLima < qs[|ps|].priceLima)
    {
      if k < |ps| {
        assert qs[k] == ps[k];
      }
    }
  }

  /** What the dedup loop keeps true of its output `out` after the lines `ps`. */
  ghost predicate DedupInv(out: seq<Product>, ps: seq<Product>) {
    UniqueKeys(out) && KeySet(out) == KeySet(ps) && AllFirstBest(out, ps)
  }

  lemma AbsorbNew(out: seq<Product>, ps: seq<Product>, p: Product)
    requires DedupInv(out, ps)
    requires KeyIndex(out, KeyOf(p)).None?
    ensures DedupInv(out + [p], ps + [p])
  {
    var out' := out + [p];
    var qs := ps + [p];
    forall q | q in out ensures KeyOf(q) != KeyOf(p) {
      var j :| 0 <= j < |out| && out[j] == q;
    }
    assert KeyOf(p) !in KeySet(ps);
    assert KeySet(out') == KeySet(out) + {KeyOf(p)};
    assert KeySet(qs) == KeySet(ps) + {KeyOf(p)};
    forall j | 0 <= j < |out'| ensures exists i :: FirstBest(qs, i) && qs[i] == out'[j] {
      if j < |out| {
        var i :| FirstBest(ps, i) && ps[i] == out[j];
        FirstBestSnoc(ps, p, i);
        assert qs[i] == ps[i];
      } else {
        forall k | 0 <= k < |ps| ensures KeyOf(ps[k]) != KeyOf(p) {
          assert ps[k] in ps;
        }
        FirstBestLast(ps, p);
      }
    }
  }

  lemma AbsorbReplace(out: seq<Product>, ps: seq<Product>, p: Product, j0: nat)
    requires DedupInv(out, ps)
    requires j0 < |out| && KeyOf(out[j0]) == KeyOf(p) && p.priceLima > out[j0].priceLima
    ensures DedupInv(out[j0 := p], ps + [p])
  {
    var out' := out[j0 := p];
    var qs := ps + [p];
    var i0 :| FirstBest(ps, i0) && ps[i0] == out[j0];
    forall k | 0 <= k < |ps| && KeyOf(ps[k]) == KeyOf(p) ensures ps[k].priceLima < p.priceLima {
      assert KeyOf(ps[k]) == KeyOf(ps[i0]);
    }
    FirstBestLast(ps, p);
    assert qs[|ps|] == p;
    forall j | 0 <= j < |out'| ensures exists i :: FirstBest(qs, i) && qs[i] == out'[j] {
      if j != j0 {
        var i :| FirstBest(ps, i) && ps[i] == out[j];
        FirstBestSnoc(ps, p, i);
        assert qs[i] == ps[i];
      }
    }
    assert KeySet(qs) == KeySet(ps) + {KeyOf(p)};
    assert KeySet(out') == KeySet(out) by {
      forall k | k in KeySet(out) ensures k in KeySet(out') {
        var r :| r in out && KeyOf(r) == k;
        var j :| 0 <= j < |out| && out[j] == r;
        if j == j0 { assert out'[j0] == p; } else { assert out'[j] == r; }
      }
      forall k | k in KeySet(out') ensures k in KeySet(out) {
        var r :| r in out' && KeyOf(r) == k;
        var j :| 0 <= j < |out'| && out'[j] == r;
        if j == j0 { assert out[j0] in out; } else { assert out[j] == r; }
      }
    }
  }

  lemma AbsorbKeep(out: seq<Product>, ps: seq<Product>, p: Product, j0: nat)
    requires DedupInv(out, ps)
    requires j0 < |out| && KeyOf(out[j0]) == KeyOf(p) && p.priceLima <= out[j0].priceLima
    ensures DedupInv(out, ps + [p])
  {
    var qs := ps + [p];
    forall j | 0 <= j < |out| ensures exists i :: FirstBest(qs, i) && qs[i] == out[j] {
      var i :| FirstBest(ps, i) && ps[i] == out[j];
      FirstBestSnoc(ps, p, i);
      assert qs[i] == ps[i];
    }
    assert KeySet(qs) == KeySet(ps) + {KeyOf(p)};
    assert out[j0] in out;
  }

  /** The keys stay unique, the key set is the input's, and every kept line
      is the first dearest line of its key. */
  lemma {:induction false} DedupInvariant(ps: seq<Product>)
    ensures UniqueKeys(Dedup(ps))
    ensures KeySet(Dedup(ps)) == KeySet(ps)
    ensures AllFirstBest(Dedup(ps), ps)
    decreases |ps|
  {
    if |ps| > 0 {
      var n := |ps| - 1;
      var front := ps[..n];
      var p := ps[n];
      assert ps == front + [p];
      DedupInvariant(front);
      var out := Dedup(front);
      match KeyIndex(out, KeyOf(p))
      case None => AbsorbNew(out, front, p);
      case Some(j0) =>
        if p.priceLima > out[j0].priceLima {
          AbsorbReplace(out, front, p, j0);
        } else {
          AbsorbKeep(out, front, p, j0);
        }
    }
  }

  /** Where the key `k` first appears in `ps` (`|ps|` when it does not). */
  function FirstOf(ps: seq<Product>, k: Key): nat {
    KeyIndex(ps, k).GetOr(|ps|)
  }

  /** The lines of `out` come in the order their keys first appear in `ps`. */
  ghost predicate InFirstOrder(out: seq<Product>, ps: seq<Product>) {
    forall a, b :: 0 <= a < b < |out| ==> FirstOf(ps, KeyOf(out[a])) < FirstOf(ps, KeyOf(out[b]))
  }

  lemma FirstOfSnoc(ps: seq<Product>, p: Product, k: Key)
    requires k in KeySet(ps)
    ensures FirstOf(ps + [p], k) == FirstOf(ps, k) < |ps|
  {
    var q :| q in ps && KeyOf(q) == k;
    var w :| 0 <= w < |ps| && ps[w] == q;
    var qs := ps + [p];
    var i := KeyIndex(ps, k).value;
    assert qs[w] == ps[w];
    var i' := KeyIndex(qs, k).value;
    assert qs[i] == ps[i];
    if i' < |ps| {
      assert ps[i'] == qs[i'];
    }
  }

  lemma FirstOfNew(ps: seq<Product>, p: Product)
    requires KeyOf(p) !in KeySet(ps)
    ensures FirstOf(ps + [p], KeyOf(p)) == |ps|
  {
    var qs := ps + [p];
    forall i | 0 <= i < |ps| ensures KeyOf(qs[i]) != KeyOf(p) {
      assert qs[i] == ps[i] && ps[i] in ps;
    }
    assert KeyOf(qs[|ps|]) == KeyOf(p);
  }

  lemma FirstOfKept(out: seq<Product>, ps: seq<Product>, p: Product)
    requires KeySet(out) == KeySet(ps)
    ensures forall q :: q in out ==> FirstOf(ps + [p], KeyOf(q)) == FirstOf(ps, KeyOf(q)) < |ps|
  {
    forall q | q in out ensures FirstOf(ps + [p], KeyOf(q)) == FirstOf(ps, KeyOf(q)) < |ps| {
      assert KeyOf(q) in KeySet(out);
      FirstOfSnoc(ps, p, KeyOf(q));
    }
  }

  lemma OrderNew(out: seq<Product>, ps: seq<Product>, p: Product)
    requires KeySet(out) == KeySet(ps) && InFirstOrder(out, ps)
    requires KeyIndex(out, KeyOf(p)).None?
    ensures InFirstOrder(out + [p], ps + [p])
  {
    var out' := out + [p];
    var qs := ps + [p];
    FirstOfKept(out, ps, p);
    forall q | q in out ensures KeyOf(q) != KeyOf(p) {
      var j :| 0 <= j < |out| && out[j] == q;
    }
    assert KeyOf(p) !in KeySet(ps);
    FirstOfNew(ps, p);
    forall a, b | 0 <= a < b < |out| ensures FirstOf(qs, KeyOf(out'[a])) < FirstOf(qs, KeyOf(out'[b])) {
      assert out'[a] == out[a] && out[a] in out;
      assert out'[b] == out[b] && out[b] in out;
    }
    forall a | 0 <= a < |out| ensures FirstOf(qs, KeyOf(out'[a])) < FirstOf(qs, KeyOf(out'[|out|])) {
      assert out'[a] == out[a] && out[a] in out;
    }
  }

  lemma OrderReplace(out: seq<Product>, ps: seq<Product>, p: Product, j0: nat)
    requires KeySet(out) == KeySet(ps) && InFirstOrder(out, ps)
    requires j0 < |out| && KeyOf(out[j0]) == KeyOf(p)
    ensures InFirstOrder(out[j0 := p], ps + [p])
  {
    var out' := out[j0 := p];
    var qs := ps + [p];
    FirstOfKept(out, ps, p);
    forall a, b | 0 <= a < b < |out'| ensures FirstOf(qs, KeyOf(out'[a])) < FirstOf(qs, KeyOf(out'[b])) {
      assert KeyOf(out'[a]) == KeyOf(out[a]) && out[a] in out;
      assert KeyOf(out'[b]) == KeyOf(out[b]) && out[b] in out;
    }
  }

  lemma OrderKeep(out: seq<Product>, ps: seq<Product>, p: Product)
    requires KeySet(out) == KeySet(ps) && InFirstOrder(out, ps)
    ensures InFirstOrder(out, ps + [p])
  {
    FirstOfKept(out, ps, p);
    forall a, b | 0 <= a < b < |out| ensures FirstOf(ps + [p], KeyOf(out[a])) < FirstOf(ps + [p], KeyOf(out[b])) {
      assert out[a] in out && out[b] in out;
    }
  }

  /** The kept lines come in the order their name and size first appear, as
      the values of a Python dictionary keep their first insertion position. */
  lemma {:induction false} DedupOrder(ps: seq<Product>)
    ensures InFirstOrder(Dedup(ps), ps)
    decreases |ps|
  {
    if |ps| > 0 {
      var n := |ps| - 1;
      var front := ps[..n];
      var p := ps[n];
      assert ps == front + [p];
      DedupOrder(front);
      DedupInvariant(front);
      assert KeySet(Dedup(front)) == KeySet(front);
      var out := Dedup(front);
      match KeyIndex(out, KeyOf(p))
      case None => OrderNew(out, front, p);
      case Some(j0) =>
        if p.priceLima > out[j0].priceLima {
          OrderReplace(out, front, p, j0);
        } else {
          OrderKeep(out, front, p);
        }
    }
  }

  // ---- Sort: `lista_final.sort(key=lambda x: x['nombre'])`, stable ----

  ghost predicate SortedByName(xs: seq<Product>) {
    forall i, j :: 0 <= i < j < |xs| ==> StrLe(xs[i].name, xs[j].name)
  }

  /** The lines of `xs` named `s`, in order. */
  function Named(xs: seq<Product>, s: string): seq<Product>
    decreases |xs|
  {
    if |xs| == 0 then []
    else (if xs[0].name == s then [xs[0]] else []) + Named(xs[1..], s)
  }

  lemma {:induction false} NamedConcat(a: seq<Product>, b: seq<Product>, s: string)
    ensures Named(a + b, s) == Named(a, s) + Named(b, s)
    decreases |a|
  {
    if |a| > 0 {
      assert (a + b)[0] == a[0];
      assert (a + b)[1..] == a[1..] + b;
      NamedConcat(a[1..], b, s);
    } else {
      assert a + b == b;
    }
  }

  /** `p` placed into sorted `xs` after every line whose name is not above its own. */
  function Insert(xs: seq<Product>, p: Product): seq<Product>
    decreases |xs|
  {
    if |xs| == 0 then [p]
    else if StrLe(xs[0].name, p.name) then [xs[0]] + Insert(xs[1..], p)
    else [p] + xs
  }

  lemma {:induction false} InsertKeeps(xs: seq<Product>, p: Product)
    ensures multiset(Insert(xs, p)) == multiset(xs) + multiset{p}
    decreases |xs|
  {
    if |xs| > 0 {
      assert xs == [xs[0]] + xs[1..];
      InsertKeeps(xs[1..], p);
    }
  }

  lemma {:induction false} InsertSorted(xs: seq<Product>, p: Product)
    requires SortedByName(xs)
    ensures SortedByName(Insert(xs, p))
    decreases |xs|
  {
    if |xs| > 0 {
      var rest := xs[1..];
      if StrLe(xs[0].name, p.name) {
        InsertSorted(rest, p);
        InsertKeeps(rest, p);
        var r := Insert(rest, p);
        var out := Insert(xs, p);
        assert out == [xs[0]] + r;
        forall y | y in r ensures StrLe(xs[0].name, y.name) {
          assert y in multiset(r);
          if y != p {
            assert y in multiset(rest);
            var k :| 0 <= k < |rest| && rest[k] == y;
            assert xs[k + 1] == y;
          }
        }
        forall i, j | 0 <= i < j < |out| ensures StrLe(out[i].name, out[j].name) {
          if i == 0 {
            assert out[j] == r[j - 1];
          } else {
            assert out[i] == r[i - 1] && out[j] == r[j - 1];
          }
        }
      } else {
        StrLeTotal(xs[0].name, p.name);
        var out := Insert(xs, p);
        forall j | 0 <= j < |xs| ensures StrLe(p.name, xs[j].name) {
          if j > 0 {
            StrLeTransitive(p.name, xs[0].name, xs[j].name);
          }
        }
        forall i, j | 0 <= i < j < |out| ensures StrLe(out[i].name, out[j].name) {
          if i == 0 {
            assert out[j] == xs[j - 1];
          } else {
            assert out[i] == xs[i - 1] && out[j] == xs[j - 1];
          }
        }
      }
    }
  }

  /** Inserting puts `p` after every line already there with the same name. */
  lemma {:induction false} InsertStable(xs: seq<Product>, p: Product, s: string)
    requires SortedByName(xs)
    ensures Named(Insert(xs, p), s) == Named(xs, s) + Named([p], s)
    decreases |xs|
  {
    if |xs| == 0 {
      assert Insert(xs, p) == [p];
    } else {
      var rest := xs[1..];
      assert xs == [xs[0]] + rest;
      if StrLe(xs[0].name, p.name) {
        InsertStable(rest, p, s);
        assert Insert(xs, p) == [xs[0]] + Insert(rest, p);
        NamedConcat([xs[0]], Insert(rest, p), s);
        NamedConcat([xs[0]], rest, s);
      } else {
        StrLeTotal(p.name, p.name);
        forall k | 0 <= k < |xs| ensures xs[k].name != p.name {
          assert k == 0 || StrLe(xs[0].name, xs[k].name);
        }
        NamedNone(xs, p.name);
        assert Insert(xs, p) == [p] + xs;
        NamedConcat([p], xs, s);
      }
    }
  }

  lemma {:induction false} NamedNone(xs: seq<Product>, s: string)
    requires forall k :: 0 <= k < |xs| ==> xs[k].name != s
    ensures Named(xs, s) == []
    decreases |xs|
  {
    if |xs| > 0 {
      NamedNone(xs[1..], s);
    }
  }

  /** `lista_final.sort(key=lambda x: x['nombre'])`, as an insertion sort. */
  function SortByName(ps: seq<Product>): seq<Product>
    decreases |ps|
  {
    if |ps| == 0 then []
    else Insert(SortByName(ps[..|ps| - 1]), ps[|ps| - 1])
  }

  lemma {:induction false} SortKeeps(ps: seq<Product>)
    ensures multiset(SortByName(ps)) == multiset(ps)
    decreases |ps|
  {
    if |ps| > 0 {
      var n := |ps| - 1;
      assert ps == ps[..n] + [ps[n]];
      SortKeeps(ps[..n]);
      InsertKeeps(SortByName(ps[..n]), ps[n]);
    }
  }

  /** The sort orders by name (code point by code point), keeps every line,
      and keeps lines with the same name in their original order. */
  lemma {:induction false} SortByNameSpec(ps: seq<Product>)
    ensures SortedByName(SortByName(ps))
    ensures multiset(SortByName(ps)) == multiset(ps)
    ensures forall s :: Named(SortByName(ps), s) == Named(ps, s)
    decreases |ps|
  {
    if |ps| > 0 {
      var n := |ps| - 1;
      var front := ps[..n];
      assert ps == front + [ps[n]];
      SortByNameSpec(front);
      InsertSorted(SortByName(front), ps[n]);
      InsertKeeps(SortByName(front), ps[n]);
      forall s ensures Named(SortByName(ps), s) == Named(ps, s) {
        InsertStable(SortByName(front), ps[n], s);
        NamedConcat(front, [ps[n]], s);
      }
    }
  }

  lemma ConsUnique(h: Product, r: seq<Product>)
    requires UniqueKeys(r)
    requires forall y :: y in r ==> KeyOf(y) != KeyOf(h)
    ensures UniqueKeys([h] + r)
  {
    var out := [h] + r;
    forall i, j | 0 <= i < j < |out| ensures KeyOf(out[i]) != KeyOf(out[j]) {
      assert out[j] == r[j - 1];
      if i > 0 {
        assert out[i] == r[i - 1];
      }
    }
  }

  lemma InsertFrom(xs: seq<Product>, p: Product)
    ensures forall y :: y in Insert(xs, p) ==> y == p || y in xs
  {
    InsertKeeps(xs, p);
    forall y | y in Insert(xs, p) ensures y == p || y in xs {
      assert y in multiset(Insert(xs, p));
    }
  }

  lemma {:induction false} InsertUnique(xs: seq<Product>, p: Product)
    requires UniqueKeys(xs)
    requires forall i :: 0 <= i < |xs| ==> KeyOf(xs[i]) != KeyOf(p)
    ensures UniqueKeys(Insert(xs, p))
    decreases |xs|
  {
    if |xs| > 0 {
      var rest := xs[1..];
      if StrLe(xs[0].name, p.name) {
        assert UniqueKeys(rest) by {
          forall i, j | 0 <= i < j < |rest| ensures KeyOf(rest[i]) != KeyOf(rest[j]) {
            assert rest[i] == xs[i + 1] && rest[j] == xs[j + 1];
          }
        }
        assert forall i :: 0 <= i < |rest| ==> rest[i] == xs[i + 1];
        InsertUnique(rest, p);
        InsertFrom(rest, p);
        var r := Insert(rest, p);
        forall y | y in r ensures KeyOf(y) != KeyOf(xs[0]) {
          if y != p {
            var k :| 0 <= k < |rest| && rest[k] == y;
            assert xs[k + 1] == y;
          }
        }
        ConsUnique(xs[0], r);
      } else {
        forall y | y in xs ensures KeyOf(y) != KeyOf(p) {
          var k :| 0 <= k < |xs| && xs[k] == y;
        }
        ConsUnique(p, xs);
      }
    }
  }

  /** Sorting a list with one line per name and size keeps it so. */
  lemma {:induction false} SortKeepsUniqueKeys(xs: seq<Product>)
    requires UniqueKeys(xs)
    ensures UniqueKeys(SortByName(xs))
    decreases |xs|
  {
    if |xs| > 0 {
      var n := |xs| - 1;
      var front := xs[..n];
      var last := xs[n];
      assert UniqueKeys(front) by {
        forall i, j | 0 <= i < j < |front| ensures KeyOf(front[i]) != KeyOf(front[j]) {
          assert front[i] == xs[i] && front[j] == xs[j];
        }
      }
      SortKeepsUniqueKeys(front);
      var sorted := SortByName(front);
      SortedFrom(front);
      forall i | 0 <= i < |sorted| ensures KeyOf(sorted[i]) != KeyOf(last) {
        assert sorted[i] in sorted;
        var k :| 0 <= k < |front| && front[k] == sorted[i];
        assert xs[k] == front[k];
      }
      assert SortByName(xs) == Insert(sorted, last);
      InsertUnique(sorted, last);
    }
  }

  lemma SortedFrom(xs: seq<Product>)
    ensures forall y :: y in SortByName(xs) ==> y in xs
  {
    SortKeeps(xs);
    forall y | y in SortByName(xs) ensures y in xs {
      assert y in multiset(SortByName(xs));
    }
  }
}

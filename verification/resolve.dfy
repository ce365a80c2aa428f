/** Pricing the whole item list in order. The loop looks each item's rule up
    in the shared rules dictionary and, when the item has a manual margin,
    writes that margin INTO the dictionary entry (`regla['margen'] = ...`),
    so later items filed under the same upper-cased name inherit it. The
    model threads the dictionary through the loop to reproduce this. */
module Resolve {
  import opened Strings
  import opened Collections
  import opened Rules
  import opened Overrides
  import opened CostTable
  import opened Pricing

  /** An item whose pricing writes its override into the rules dictionary:
      it has a usable cost, a rules row and a margin override. */
  function Leaks(rules: map<string, Rule>, db: Edits, masters: map<string, real>): Item -> bool {
    (it: Item) => UnitCost(it, masters).Some? && Upper(it.name) in rules && MarginOverride(db, it.name).Some?
  }

  function LeakKey(): Item -> string {
    (it: Item) => Upper(it.name)
  }

  function LeakedMargin(db: Edits): Item -> real {
    (it: Item) => MarginOverride(db, it.name).GetOr(0.0)
  }

  /** The rules dictionary after pricing `item`. */
  function NextRules(rules: map<string, Rule>, db: Edits, masters: map<string, real>, item: Item): map<string, Rule> {
    if Leaks(rules, db, masters)(item) then
      var u := Upper(item.name);
      rules[u := rules[u].(margin := MarginOverride(db, item.name).value)]
    else rules
  }

  /** The rules dictionary after pricing every item of `items`, in order. */
  function Thread(rules: map<string, Rule>, db: Edits, masters: map<string, real>, items: seq<Item>): map<string, Rule>
    decreases |items|
  {
    if |items| == 0 then rules
    else
      var n := |items| - 1;
      NextRules(Thread(rules, db, masters, items[..n]), db, masters, items[n])
  }

  /** The dictionary the loop leaves behind has the same keys, and each entry
      differs from the loaded rule at most in its margin, which is the
      override of the LAST leaking item filed under that key. */
  lemma {:induction false} ThreadIsLastOverride(rules: map<string, Rule>, db: Edits, masters: map<string, real>, items: seq<Item>)
    ensures Thread(rules, db, masters, items).Keys == rules.Keys
    ensures forall u :: u in rules ==>
              var leaked := LastWins(items, Leaks(rules, db, masters), LeakKey(), LeakedMargin(db));
              Thread(rules, db, masters, items)[u] == if u in leaked then rules[u].(margin := leaked[u]) else rules[u]
    decreases |items|
  {
    if |items| > 0 {
      var n := |items| - 1;
      var front := items[..n];
      ThreadIsLastOverride(rules, db, masters, front);
      var t := Thread(rules, db, masters, front);
      assert Leaks(t, db, masters)(items[n]) == Leaks(rules, db, masters)(items[n]);
    }
  }

  /** Pricing item `i` sees the margin of the last earlier leaking item filed
      under the same upper-cased name when there is one, its own override
      taking precedence. */
  lemma InheritedMargin(rules: map<string, Rule>, db: Edits, masters: map<string, real>, items: seq<Item>, i: nat, j: nat)
    requires j < i < |items|
    requires Leaks(rules, db, masters)(items[j])
    requires Upper(items[j].name) == Upper(items[i].name)
    requires forall k :: j < k < i && Leaks(rules, db, masters)(items[k]) ==> Upper(items[k].name) != Upper(items[i].name)
    ensures RuleFor(Thread(rules, db, masters, items[..i]), db, items[i]).margin
         == MarginOverride(db, items[i].name).GetOr(MarginOverride(db, items[j].name).value)
  {
    var front := items[..i];
    var keep := Leaks(rules, db, masters);
    ThreadIsLastOverride(rules, db, masters, front);
    LastWinsSpec(front, keep, LeakKey(), LeakedMargin(db));
    assert LastWithKey(front, keep, LeakKey(), j);
  }

  /** Item `i` priced as the loop prices it: with the dictionary as the
      items before it left it. */
  function OutcomeAt(rules: map<string, Rule>, db: Edits, masters: map<string, real>, items: seq<Item>, i: nat): Outcome
    requires i < |items|
  {
    ResolveRow(Thread(rules, db, masters, items[..i]), db, masters, items[i])
  }

  /** The outcome of every item, each priced after the ones before it. */
  function Outcomes(rules: map<string, Rule>, db: Edits, masters: map<string, real>, items: seq<Item>): seq<Outcome> {
    seq(|items|, i requires 0 <= i < |items| => OutcomeAt(rules, db, masters, items, i))
  }

  /** Gathering the outcomes of the loop: the first division by zero aborts
      it, dropped items leave no line, and the lines keep item order. */
  function Collect(os: seq<Outcome>): (r: Option<seq<Product>>)
    ensures r.None? <==> exists i :: 0 <= i < |os| && os[i].DivideByZero?
    ensures r.Some? ==> |r.value| <= |os|
    ensures r.Some? ==> forall p :: p in r.value ==> exists i :: 0 <= i < |os| && os[i] == Line(p)
    ensures r.Some? ==> forall i :: 0 <= i < |os| && os[i].Line? ==> os[i].product in r.value
    decreases |os|
  {
    if |os| == 0 then Some([])
    else
      var n := |os| - 1;
      var front := Collect(os[..n]);
      assert forall i :: 0 <= i < n ==> os[..n][i] == os[i];
      match front
      case None => None
      case Some(ps) =>
        match os[n]
        case DivideByZero => None
        case Dropped => Some(ps)
        case Line(p) => Some(ps + [p])
  }

  /** Pricing the list: `None` when an item divides by zero (the exception
      aborts the whole computation), else the lines in item order. */
  function ResolveAll(rules: map<string, Rule>, db: Edits, masters: map<string, real>, items: seq<Item>): Option<seq<Product>> {
    Collect(Outcomes(rules, db, masters, items))
  }

  /** The lines come in item order, at most one per item: no items give no
      lines, and pricing one more item either aborts the list, leaves it as
      it was (the item is dropped), or appends that item's line. */
  lemma ResolveAllSnoc(rules: map<string, Rule>, db: Edits, masters: map<string, real>, items: seq<Item>, x: Item)
    ensures ResolveAll(rules, db, masters, []) == Some([])
    ensures var o := ResolveRow(Thread(rules, db, masters, items), db, masters, x);
            var before := ResolveAll(rules, db, masters, items);
            ResolveAll(rules, db, masters, items + [x]) ==
              if before.None? || o.DivideByZero? then None
              else if o.Dropped? then before
              else Some(before.value + [o.product])
  {
    OutcomesSnoc(rules, db, masters, items, x);
    CollectSnoc(Outcomes(rules, db, masters, items), ResolveRow(Thread(rules, db, masters, items), db, masters, x));
  }

  lemma OutcomesSnoc(rules: map<string, Rule>, db: Edits, masters: map<string, real>, items: seq<Item>, x: Item)
    ensures Outcomes(rules, db, masters, items + [x])
         == Outcomes(rules, db, masters, items) + [ResolveRow(Thread(rules, db, masters, items), db, masters, x)]
  {
    var all := items + [x];
    var n := |items|;
    var os := Outcomes(rules, db, masters, all);
    var front := Outcomes(rules, db, masters, items);
    assert all[..n] == items;
    forall i | 0 <= i < n
      ensures os[i] == front[i]
    {
      assert all[..i] == items[..i];
      assert all[i] == items[i];
    }
  }

  lemma CollectSnoc(os: seq<Outcome>, o: Outcome)
    ensures Collect(os + [o]) ==
              if Collect(os).None? || o.DivideByZero? then None
              else if o.Dropped? then Collect(os)
              else Some(Collect(os).value + [o.product])
  {
    assert (os + [o])[..|os|] == os;
  }

  /** The leak only changes margins, so whether an item divides by zero does
      not depend on what was priced before it. */
  lemma FailureIgnoresLeak(rules: map<string, Rule>, db: Edits, masters: map<string, real>, items: seq<Item>, item: Item)
    ensures ResolveRow(Thread(rules, db, masters, items), db, masters, item).DivideByZero?
        <==> ResolveRow(rules, db, masters, item).DivideByZero?
  {
    var t := Thread(rules, db, masters, items);
    ThreadIsLastOverride(rules, db, masters, items);
    DivideByZeroExactly(t, db, masters, item);
    DivideByZeroExactly(rules, db, masters, item);
    assert RuleFor(t, db, item).packaging == RuleFor(rules, db, item).packaging;
  }

  /** The list fails exactly when some item, priced with the loaded rules,
      divides by zero. */
  lemma ResolveAllFailsExactly(rules: map<string, Rule>, db: Edits, masters: map<string, real>, items: seq<Item>)
    ensures ResolveAll(rules, db, masters, items).None? <==>
              exists i :: 0 <= i < |items| && ResolveRow(rules, db, masters, items[i]).DivideByZero?
  {
    var os := Outcomes(rules, db, masters, items);
    forall i | 0 <= i < |items|
      ensures os[i].DivideByZero? <==> ResolveRow(rules, db, masters, items[i]).DivideByZero?
    {
      FailureIgnoresLeak(rules, db, masters, items[..i], items[i]);
    }
  }
}

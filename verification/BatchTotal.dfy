/** The batch total: one scalar when every costed item shares one currency,
    nothing otherwise, and an error for an amount that does not parse or a sum
    that does not print. Money is exact. */
module BatchTotal {
  import opened Text

  /** amount is what the money parser makes of the wire string. */
  datatype Cost = Cost(amount: Option<real>, currency: string)

  datatype Denial = ContentUnavailable | Other(reason: string)

  datatype ResultItem = ResultItem(offerId: string, cost: Option<Cost>, denial: Option<Denial>, payload: string)

  datatype Outcome = Absent | Present(sum: real, currency: string) | Unparsable | Unformattable

  /** Carries a cost in some currency. */
  predicate Costed(it: ResultItem) { it.cost.Some? && it.cost.value.currency != "" }

  function Amount(it: ResultItem): real {
    if Costed(it) && it.cost.value.amount.Some? then it.cost.value.amount.value else 0.0
  }

  predicate AllParse(items: seq<ResultItem>) {
    forall i | 0 <= i < |items| && Costed(items[i]) :: items[i].cost.value.amount.Some?
  }

  function Currencies(items: seq<ResultItem>): set<string> {
    set i | 0 <= i < |items| && Costed(items[i]) :: items[i].cost.value.currency
  }

  function Sum(items: seq<ResultItem>): real {
    if items == [] then 0.0 else Sum(items[..|items| - 1]) + Amount(items[|items| - 1])
  }

  /** The meaning of each outcome; exactly one holds of any batch. */
  ghost predicate IsTotal(items: seq<ResultItem>, formats: real -> bool, out: Outcome) {
    match out
    case Unparsable => !AllParse(items)
    case Absent => AllParse(items) && forall c :: Currencies(items) != {c}
    case Unformattable => AllParse(items) && (exists c :: Currencies(items) == {c}) && !formats(Sum(items))
    case Present(sum, currency) =>
      AllParse(items) && Currencies(items) == {currency} && sum == Sum(items) && formats(sum)
  }

  lemma TotalUnique(items: seq<ResultItem>, formats: real -> bool, a: Outcome, b: Outcome)
    requires IsTotal(items, formats, a) && IsTotal(items, formats, b)
    ensures a == b
  {
    if a.Present? && b.Present? {
      assert a.currency in Currencies(items);
    }
  }

  /** The sum of the items in one currency. */
  function SumIn(items: seq<ResultItem>, currency: string): real {
    if items == [] then 0.0
    else
      var it := items[|items| - 1];
      SumIn(items[..|items| - 1], currency) +
      if Costed(it) && it.cost.value.currency == currency then Amount(it) else 0.0
  }

  lemma {:induction false} OneCurrencySum(items: seq<ResultItem>, currency: string)
    requires Currencies(items) <= {currency}
    ensures SumIn(items, currency) == Sum(items)
  {
    if items == [] {
    } else {
      var init, it := items[..|items| - 1], items[|items| - 1];
      assert forall i | 0 <= i < |init| :: init[i] == items[i];
      assert Costed(it) ==> it.cost.value.currency in Currencies(items);
      OneCurrencySum(init, currency);
    }
  }

  lemma CurrenciesNext(items: seq<ResultItem>, i: nat)
    requires i < |items|
    ensures Currencies(items[..i + 1]) ==
            Currencies(items[..i]) + if Costed(items[i]) then {items[i].cost.value.currency} else {}
  {
    var a, b := items[..i], items[..i + 1];
    assert forall k | 0 <= k < i :: a[k] == b[k];
    forall c | c in Currencies(b)
      ensures c in Currencies(a) + if Costed(items[i]) then {items[i].cost.value.currency} else {}
    {
      var k :| 0 <= k < |b| && Costed(b[k]) && b[k].cost.value.currency == c;
      assert k < i ==> Costed(a[k]);
    }
    forall c | c in Currencies(a)
      ensures c in Currencies(b)
    {
      var k :| 0 <= k < |a| && Costed(a[k]) && a[k].cost.value.currency == c;
      assert Costed(b[k]);
    }
    assert Costed(items[i]) ==> b[i].cost.value.currency in Currencies(b);
  }

  ghost predicate SumsAre(done: seq<ResultItem>, sums: map<string, real>) {
    forall c :: SumIn(done, c) == if c in sums then sums[c] else 0.0
  }

  ghost predicate FirstSeen(done: seq<ResultItem>, sums: map<string, real>, order: seq<string>) {
    && sums.Keys == Currencies(done) == (set k | 0 <= k < |order| :: order[k])
    && (forall a, b | 0 <= a < b < |order| :: order[a] != order[b])
  }

  /** The running state after the items in done: a sum per currency, and the
      currencies in first-seen order. */
  ghost predicate Tally(done: seq<ResultItem>, sums: map<string, real>, order: seq<string>) {
    AllParse(done) && FirstSeen(done, sums, order) && SumsAre(done, sums)
  }

  function TallyOne(sums: map<string, real>, currency: string, amount: real): map<string, real> {
    sums[currency := (if currency in sums then sums[currency] else 0.0) + amount]
  }

  lemma SumsNext(items: seq<ResultItem>, i: nat, sums: map<string, real>)
    requires i < |items| && SumsAre(items[..i], sums)
    requires Costed(items[i]) ==> items[i].cost.value.amount.Some?
    ensures SumsAre(items[..i + 1],
              if Costed(items[i]) then TallyOne(sums, items[i].cost.value.currency, items[i].cost.value.amount.value) else sums)
  {
    var done := items[..i + 1];
    assert done[..i] == items[..i] && done[i] == items[i];
    forall c: string
      ensures SumIn(done, c) == SumIn(items[..i], c) +
                                if Costed(items[i]) && items[i].cost.value.currency == c then Amount(items[i]) else 0.0
    {
    }
    hide SumIn;
  }

  lemma SeenNext(items: seq<ResultItem>, i: nat, sums: map<string, real>, order: seq<string>, c: string, amount: real)
    requires i < |items| && FirstSeen(items[..i], sums, order)
    requires Costed(items[i]) && items[i].cost.value.currency == c
    ensures FirstSeen(items[..i + 1], TallyOne(sums, c, amount), if c in sums then order else order + [c])
  {
    CurrenciesNext(items, i);
    hide Currencies;
    OrderNext(order, c);
    assert TallyOne(sums, c, amount).Keys == sums.Keys + {c};
    if c in sums {
      assert sums.Keys + {c} == sums.Keys;
    }
  }

  lemma TallyNext(items: seq<ResultItem>, i: nat, sums: map<string, real>, order: seq<string>)
    requires i < |items| && Tally(items[..i], sums, order)
    requires Costed(items[i]) ==> items[i].cost.value.amount.Some?
    ensures !Costed(items[i]) ==> Tally(items[..i + 1], sums, order)
    ensures Costed(items[i]) ==>
              var c := items[i].cost.value.currency;
              Tally(items[..i + 1], TallyOne(sums, c, items[i].cost.value.amount.value), if c in sums then order else order + [c])
  {
    SumsNext(items, i, sums);
    hide SumsAre;
    if Costed(items[i]) {
      SeenNext(items, i, sums, order, items[i].cost.value.currency, items[i].cost.value.amount.value);
      hide FirstSeen;
    } else {
      CurrenciesNext(items, i);
      hide Currencies;
    }
  }

  lemma OrderNext(order: seq<string>, c: string)
    ensures (set k | 0 <= k < |order + [c]| :: (order + [c])[k]) == (set k | 0 <= k < |order| :: order[k]) + {c}
  {
    var o := order + [c];
    assert o[|order|] == c;
    var before, after := set k | 0 <= k < |order| :: order[k], set k | 0 <= k < |o| :: o[k];
    forall x | x in before
      ensures x in after
    {
      var k :| 0 <= k < |order| && order[k] == x;
      assert o[k] == x;
    }
  }

  method Compute(items: seq<ResultItem>, formats: real -> bool) returns (out: Outcome)
    ensures IsTotal(items, formats, out)
  {
    hide Tally, Sum, SumIn;
    var sums: map<string, real> := map[];
    var order: seq<string> := [];
    TallyNothing();
    assert items[..0] == [];
    for i := 0 to |items|
      invariant Tally(items[..i], sums, order)
    {
      var it := items[i];
      if it.cost.None? || it.cost.value.currency == "" {
        TallyNext(items, i, sums, order);
        continue;
      }
      if it.cost.value.amount.None? {
        assert Costed(items[i]);
        return Unparsable;
      }
      TallyNext(items, i, sums, order);
      var cur := it.cost.value.currency;
      if cur !in sums {
        order := order + [cur];
      }
      sums := sums[cur := (if cur in sums then sums[cur] else 0.0) + it.cost.value.amount.value];
    }
    assert items[..|items|] == items;
    if |order| != 1 {
      TallyAbsent(items, sums, order);
      return Absent;
    }
    var cur := order[0];
    TallySingle(items, sums, order);
    if !formats(sums[cur]) {
      return Unformattable;
    }
    return Present(sums[cur], cur);
  }

  lemma OneMore(items: seq<ResultItem>, x: ResultItem)
    ensures Sum(items + [x]) == Sum(items) + Amount(x)
    ensures Currencies(items + [x]) == Currencies(items) + if Costed(x) then {x.cost.value.currency} else {}
    ensures AllParse(items + [x]) <==> AllParse(items) && (Costed(x) ==> x.cost.value.amount.Some?)
  {
    var more := items + [x];
    assert more[..|items|] == items && more[..|items| + 1] == more && more[|items|] == x;
    CurrenciesNext(more, |items|);
    assert forall i | 0 <= i < |items| :: more[i] == items[i];
  }

  /** The total of a batch and of the batch with one item more. An item without a
      cost or a currency changes nothing, one in the same currency adds its amount,
      one in another currency leaves no total, and an amount that does not parse is
      an error whatever stands before it. */
  method ComputeOneMore(items: seq<ResultItem>, x: ResultItem, formats: real -> bool) returns (before: Outcome, after: Outcome)
    ensures items == [] ==> before.Absent?
    ensures before.Unparsable? ==> after.Unparsable?
    ensures x.cost.None? || x.cost.value.currency == "" ==> after == before
    ensures x.cost.Some? && x.cost.value.currency != "" && x.cost.value.amount.None? ==> after.Unparsable?
    ensures forall a, c | x.cost == Some(Cost(Some(a), c)) && c != "" ::
              && (items == [] ==> after == if formats(a) then Present(a, c) else Unformattable)
              && (before.Present? && c == before.currency ==>
                    after == if formats(before.sum + a) then Present(before.sum + a, c) else Unformattable)
              && (before.Present? && c != before.currency ==> after.Absent?)
  {
    before := Compute(items, formats);
    after := Compute(items + [x], formats);
    OneMore(items, x);
    if after.Present? {
      assert after.currency in Currencies(items + [x]);
    }
    if before.Present? {
      assert before.currency in Currencies(items);
    }
    if !Costed(x) {
      assert Currencies(items + [x]) == Currencies(items);
      TotalUnique(items, formats, before, after);
    } else {
      assert x.cost.value.currency in Currencies(items + [x]);
      if items == [] {
        assert Currencies(items) == {} && Currencies(items + [x]) == {x.cost.value.currency};
      }
    }
  }

  lemma TallyNothing()
    ensures Tally([], map[], [])
  {
  }

  lemma TallyAbsent(items: seq<ResultItem>, sums: map<string, real>, order: seq<string>)
    requires Tally(items, sums, order) && |order| != 1
    ensures AllParse(items) && forall c :: Currencies(items) != {c}
  {
    NotSingleton(order);
  }

  lemma TallySingle(items: seq<ResultItem>, sums: map<string, real>, order: seq<string>)
    requires Tally(items, sums, order) && |order| == 1
    ensures AllParse(items) && Currencies(items) == {order[0]}
    ensures order[0] in sums && sums[order[0]] == Sum(items)
  {
    assert Currencies(items) == {order[0]};
    OneCurrencySum(items, order[0]);
  }

  lemma NotSingleton(order: seq<string>)
    requires |order| != 1 && forall a, b | 0 <= a < b < |order| :: order[a] != order[b]
    ensures forall c :: (set k | 0 <= k < |order| :: order[k]) != {c}
  {
    var s := set k | 0 <= k < |order| :: order[k];
    forall c
      ensures s != {c}
    {
      if |order| > 1 {
        assert order[0] in s && order[1] in s;
      }
    }
  }

  /******* Order and grouping do not matter *******/

  lemma {:induction false} SumConcat(a: seq<ResultItem>, b: seq<ResultItem>)
    ensures Sum(a + b) == Sum(a) + Sum(b)
  {
    if b == [] {
      assert a + b == a;
    } else {
      assert (a + b)[..|a + b| - 1] == a + b[..|b| - 1];
      SumConcat(a, b[..|b| - 1]);
    }
  }

  lemma CutOut(b: seq<ResultItem>, i: nat)
    requires i < |b|
    ensures b == b[..i] + ([b[i]] + b[i + 1..])
  {
  }

  lemma OthersWithout(b: seq<ResultItem>, i: nat)
    requires i < |b|
    ensures multiset(b[..i] + b[i + 1..]) == multiset(b) - multiset{b[i]}
  {
    CutOut(b, i);
  }

  lemma SumOne(x: ResultItem)
    ensures Sum([x]) == Amount(x)
  {
    hide Amount;
    assert [x][..0] == [];
  }

  lemma SumWithout(l: seq<ResultItem>, x: ResultItem, r: seq<ResultItem>)
    ensures Sum(l + ([x] + r)) == Sum(l + r) + Amount(x)
  {
    hide *;
    SumConcat(l, r);
    SumConcat(l, [x] + r);
    SumConcat([x], r);
    SumOne(x);
  }

  lemma SumRemove(b: seq<ResultItem>, i: nat)
    requires i < |b|
    ensures Sum(b) == Sum(b[..i] + b[i + 1..]) + Amount(b[i])
    ensures multiset(b[..i] + b[i + 1..]) == multiset(b) - multiset{b[i]}
  {
    hide *;
    CutOut(b, i);
    SumWithout(b[..i], b[i], b[i + 1..]);
    OthersWithout(b, i);
  }

  lemma {:induction false} SumPermuted(a: seq<ResultItem>, b: seq<ResultItem>)
    requires multiset(a) == multiset(b)
    ensures Sum(a) == Sum(b)
  {
    hide Amount;
    if a == [] {
      assert |multiset(b)| == 0;
    } else {
      var n := |a| - 1;
      assert a[n] in multiset(b);
      var i :| 0 <= i < |b| && b[i] == a[n];
      SumRemove(a, n);
      SumRemove(b, i);
      assert a[..n] + a[n + 1..] == a[..n];
      SumPermuted(a[..n], b[..i] + b[i + 1..]);
    }
  }

  lemma SameMembers(a: seq<ResultItem>, b: seq<ResultItem>)
    requires forall it :: it in a <==> it in b
    ensures Currencies(a) == Currencies(b) && (AllParse(a) <==> AllParse(b))
  {
    CurrenciesWithin(a, b);
    CurrenciesWithin(b, a);
  }

  lemma CurrenciesWithin(a: seq<ResultItem>, b: seq<ResultItem>)
    requires forall it :: it in a ==> it in b
    ensures Currencies(a) <= Currencies(b) && (AllParse(b) ==> AllParse(a))
  {
    forall i | 0 <= i < |a|
      ensures exists j | 0 <= j < |b| :: b[j] == a[i]
    {
      assert a[i] in b;
    }
    forall c | c in Currencies(a)
      ensures c in Currencies(b)
    {
      var i :| 0 <= i < |a| && Costed(a[i]) && a[i].cost.value.currency == c;
      var j :| 0 <= j < |b| && b[j] == a[i];
      assert Costed(b[j]);
    }
  }

  /** Reordering the items changes nothing. */
  lemma TotalPermuted(a: seq<ResultItem>, b: seq<ResultItem>, formats: real -> bool, out: Outcome)
    requires multiset(a) == multiset(b) && IsTotal(a, formats, out)
    ensures IsTotal(b, formats, out)
  {
    SumPermuted(a, b);
    forall it
      ensures it in a <==> it in b
    {
      assert it in a <==> it in multiset(a);
      assert it in b <==> it in multiset(b);
    }
    SameMembers(a, b);
  }

  function Flat(groups: seq<seq<ResultItem>>): seq<ResultItem> {
    if groups == [] then [] else Flat(groups[..|groups| - 1]) + groups[|groups| - 1]
  }

  function SumPresent(outs: seq<Outcome>): real {
    if outs == [] then 0.0
    else
      var last := outs[|outs| - 1];
      SumPresent(outs[..|outs| - 1]) + if last.Present? then last.sum else 0.0
  }

  lemma {:induction false} FlatMembers(groups: seq<seq<ResultItem>>, i: nat, it: ResultItem)
    requires i < |groups| && it in groups[i]
    ensures it in Flat(groups)
  {
    if i == |groups| - 1 {
    } else {
      FlatMembers(groups[..|groups| - 1], i, it);
    }
  }

  lemma {:induction false} SumNothing(items: seq<ResultItem>)
    requires Currencies(items) == {}
    ensures Sum(items) == 0.0
  {
    OneCurrencySum(items, "");
    SumInNothing(items);
  }

  lemma {:induction false} SumInNothing(items: seq<ResultItem>)
    ensures SumIn(items, "") == 0.0
  {
    if items == [] {
    } else {
      SumInNothing(items[..|items| - 1]);
    }
  }

  /** The sum of the groups whose own sum does not print. */
  function SumUnprinted(groups: seq<seq<ResultItem>>, outs: seq<Outcome>): real
    requires |outs| == |groups|
  {
    if groups == [] then 0.0
    else
      var n := |groups| - 1;
      SumUnprinted(groups[..n], outs[..n]) + if outs[n].Unformattable? then Sum(groups[n]) else 0.0
  }

  /** A group's outcome in a single-currency batch. */
  predicate InCurrency(out: Outcome, currency: string) {
    out == Absent || out == Unformattable || (out.Present? && out.currency == currency)
  }

  /** The outcome of one group of a single-currency batch. */
  lemma GroupTotal(all: seq<ResultItem>, g: seq<ResultItem>, formats: real -> bool, currency: string, out: Outcome)
    requires AllParse(all) && Currencies(all) == {currency} && (forall it :: it in g ==> it in all)
    requires IsTotal(g, formats, out)
    ensures InCurrency(out, currency)
    ensures (if out.Present? then out.sum else if out.Unformattable? then Sum(g) else 0.0) == Sum(g)
  {
    CurrenciesWithin(g, all);
    if Currencies(g) == {} {
      SumNothing(g);
    } else {
      assert Currencies(g) == {currency};
    }
  }

  lemma {:induction false} SumGroups(all: seq<ResultItem>, groups: seq<seq<ResultItem>>, formats: real -> bool,
                                     currency: string, outs: seq<Outcome>)
    requires AllParse(all) && Currencies(all) == {currency} && |outs| == |groups|
    requires forall i, it | 0 <= i < |groups| && it in groups[i] :: it in all
    requires forall i | 0 <= i < |groups| :: IsTotal(groups[i], formats, outs[i])
    ensures SumPresent(outs) + SumUnprinted(groups, outs) == Sum(Flat(groups))
    ensures forall i | 0 <= i < |outs| :: InCurrency(outs[i], currency)
  {
    hide IsTotal, Sum;
    if groups == [] {
      assert Sum(Flat(groups)) == 0.0 by { SumOfNone(); }
    } else {
      var n := |groups| - 1;
      SumGroups(all, groups[..n], formats, currency, outs[..n]);
      SumConcat(Flat(groups[..n]), groups[n]);
      GroupTotal(all, groups[n], formats, currency, outs[n]);
      forall i | 0 <= i < |outs|
        ensures InCurrency(outs[i], currency)
      {
        assert i < n ==> outs[..n][i] == outs[i];
      }
    }
  }

  lemma SumOfNone()
    ensures Sum([]) == 0.0
  {
  }

  /** For any partition of a batch with a present total, every group is absent, in
      the same currency, or unprintable; and the total is the sum of the present
      group totals exactly when the unprintable groups add to zero. */
  lemma TotalOfPartition(items: seq<ResultItem>, groups: seq<seq<ResultItem>>, formats: real -> bool,
                         sum: real, currency: string, outs: seq<Outcome>)
    requires multiset(Flat(groups)) == multiset(items) && IsTotal(items, formats, Present(sum, currency))
    requires |outs| == |groups|
    requires forall i | 0 <= i < |groups| :: IsTotal(groups[i], formats, outs[i])
    ensures sum == SumPresent(outs) <==> SumUnprinted(groups, outs) == 0.0
    ensures sum == SumPresent(outs) + SumUnprinted(groups, outs)
    ensures forall i | 0 <= i < |outs| :: InCurrency(outs[i], currency)
  {
    forall i, it | 0 <= i < |groups| && it in groups[i]
      ensures it in items
    {
      FlatMembers(groups, i, it);
      assert it in multiset(Flat(groups));
    }
    SumGroups(items, groups, formats, currency, outs);
    SumPermuted(Flat(groups), items);
  }

  function Dollars(amount: real): ResultItem { ResultItem("", Some(Cost(Some(amount), "USD")), None, "") }

  /** A refund and a charge that print together and not apart. */
  lemma UnprintedGroupLost()
    ensures var items, groups, formats := [Dollars(-1.0), Dollars(2.0)], [[Dollars(-1.0)], [Dollars(2.0)]], (r: real) => r >= 0.0;
            && multiset(Flat(groups)) == multiset(items) && IsTotal(items, formats, Present(1.0, "USD"))
            && IsTotal(groups[0], formats, Unformattable) && IsTotal(groups[1], formats, Present(2.0, "USD"))
  {
    var a, b := Dollars(-1.0), Dollars(2.0);
    var groups, items := [[a], [b]], [a, b];
    FlatPair(a, b);
    DollarSums(-1.0, 2.0);
    DollarsOnly([a]);
    DollarsOnly([b]);
    DollarsOnly(items);
    hide Flat, Sum, Currencies, AllParse;
  }

  lemma FlatPair(a: ResultItem, b: ResultItem)
    ensures Flat([[a], [b]]) == [a, b]
  {
    var groups := [[a], [b]];
    assert groups[..1] == [[a]] && groups[..1][..0] == [];
    assert Flat([]) == [] && Flat(groups[..1]) == [a];
  }

  lemma DollarSums(x: real, y: real)
    ensures Sum([Dollars(x)]) == x && Sum([Dollars(y)]) == y && Sum([Dollars(x), Dollars(y)]) == x + y
  {
    SumOne(Dollars(x));
    SumOne(Dollars(y));
    assert [Dollars(x)] + [Dollars(y)] == [Dollars(x), Dollars(y)];
    SumConcat([Dollars(x)], [Dollars(y)]);
  }

  lemma DollarsOnly(items: seq<ResultItem>)
    requires items != [] && forall i | 0 <= i < |items| :: exists amount :: items[i] == Dollars(amount)
    ensures Currencies(items) == {"USD"} && AllParse(items)
  {
    assert Costed(items[0]) && items[0].cost.value.currency in Currencies(items);
  }
}

/** One whole resolve: discover, pick the winner, check the agent's budget against
    the winner's charge, and record it. */
module Resolve {
  import opened Text
  import opened Selection
  import opened Routing
  import opened Discovery
  import B = Budget

  datatype Response =
    | SigningFailed
    | NoOffers
    | BudgetExhausted
    | Licensed(groups: seq<OfferGroup>, exchangeId: string)

  /** The charge the winner projects: its unit price and estimated quantity. */
  function ChargeOf(o: Offer): B.Charge {
    B.Charge(OfferCharge(o), if o.pricing.Some? then o.pricing.value.quantity else 0)
  }

  /** The winner heads the stable ranking of every offer in the groups. */
  ghost predicate Wins(groups: seq<OfferGroup>, w: Candidate) {
    var all := Flat(OffersOf(groups));
    all != [] && Rank(all) != [] && w == Rank(all)[0]
  }

  /** The i-th offer is beaten by none, and beats every earlier one. */
  predicate FirstBest(all: seq<Candidate>, i: nat) {
    && i < |all|
    && (forall j | 0 <= j < |all| :: Leq(all[i], all[j]))
    && (forall j | 0 <= j < i :: Less(all[i], all[j]))
  }

  lemma WinsBeatsAll(groups: seq<OfferGroup>, w: Candidate) returns (i: nat)
    requires Wins(groups, w)
    ensures FirstBest(Flat(OffersOf(groups)), i) && Flat(OffersOf(groups))[i] == w
  {
    hide Rank, Leq, Less, Head, Flat;
    var all := Flat(OffersOf(groups));
    RankHead(all);
    HeadBeatsAll(all);
    i :| 0 <= i < |all| && all[i] == Head(all) && (forall j | 0 <= j < |all| :: Leq(all[i], all[j])) &&
         (forall j | 0 <= j < i :: Less(all[i], all[j]));
  }

  /** n is the offer's whole price in units of 1e-8, the rest dropped: what it asks,
      times the quantity when one of at least 1 is stated. */
  predicate Priced(o: Offer, x: real, n: int) {
    var q := if o.pricing.Some? && o.pricing.value.quantity >= 1 then o.pricing.value.quantity else 1;
    Asks(o, x) && n as real <= x * q as real * 100_000_000.0 < (n + 1) as real
  }

  lemma PricedIsCost(o: Offer, x: real, n: int)
    requires Priced(o, x, n) && 0 <= n < TWO63
    ensures B.CostFixed(ChargeOf(o)) == n
  {
    AsksIff(o, x);
    var exact := B.Exact(ChargeOf(o)) * B.SCALE;
    assert n as real <= exact < (n + 1) as real;
    hide B.Exact;
    assert exact.Floor == n;
  }

  /** In range the gate compares the price with what is left, and a licence adds the
      price to the counter. */
  lemma PricedGate(o: Offer, x: real, n: int, agent: string, limit: int, counts: map<string, int>, consumed: int, k: string)
    requires Priced(o, x, n) && 0 <= n && agent != "" && 0 < limit < TWO63
    ensures 0 <= consumed && consumed + n < TWO63 ==>
              (B.Admits(agent, limit, consumed, B.CostFixed(ChargeOf(o))) <==> consumed + n <= limit)
    ensures 0 <= B.Count(counts, k) && B.Count(counts, k) + n < TWO63 ==>
              B.Count(B.Recorded(counts, k, B.CostFixed(ChargeOf(o))), k) == B.Count(counts, k) + n
  {
    if n < TWO63 {
      PricedIsCost(o, x, n);
    }
    hide B.CostFixed, ChargeOf, Priced;
  }

  /** A resolve fails to sign exactly when some planned query does, and finds no offer
      exactly when nothing in the answers carries one; otherwise it has the winner
      of everything discovered. Only a licensed resolve changes a counter, and it
      records exactly the winner's charge; it is licensed exactly when the gate
      admits that charge against the counter read at the check. Within one month
      the agent's counter moves as the sequential gate says. */
  method ResolveOnce(env: Env, net: Net, uris: seq<string>, svc: B.MemoryService,
                     agent: string, limit: int, checkedIn: string, recordedIn: string)
    returns (out: Response, w: Option<Candidate>, ghost r: Outcome, ghost p: Plan)
    requires ReadByDomain(env)
    modifies svc
    ensures p == PlanFrom(uris, Routes(env, uris).0) && Plans(uris, Routes(env, uris).0, p)
    ensures out.SigningFailed? <==> exists k | 0 <= k < |p.order| :: ReplyOf(net, p, k).SignFailed?
    ensures !out.SigningFailed? ==> r.Found? && Answers(env, net, p, uris, r.groups)
    ensures out.NoOffers? <==> !out.SigningFailed? && Flat(OffersOf(r.groups)) == []
    ensures w.Some? <==> out.Licensed? || out.BudgetExhausted?
    ensures w.Some? ==> r.Found? && Wins(r.groups, w.value)
    ensures w.Some? ==>
              var consumed := old(B.Count(svc.counts, B.Key(agent, checkedIn)));
              out.Licensed? <==> B.Admits(agent, limit, consumed, B.CostFixed(ChargeOf(w.value.offer)))
    ensures !out.Licensed? ==> svc.counts == old(svc.counts)
    ensures out.Licensed? ==>
              && r.Found? && out.groups == r.groups && out.exchangeId == w.value.exchange.domain
              && svc.counts ==
                 B.Recorded(old(svc.counts), B.Key(agent, recordedIn), B.CostFixed(ChargeOf(w.value.offer)))
    ensures w.Some? && agent != "" && checkedIn == recordedIn ==>
              B.Count(svc.counts, B.Key(agent, checkedIn)) ==
              B.NextCount(limit, old(B.Count(svc.counts, B.Key(agent, checkedIn))), ChargeOf(w.value.offer))
    ensures w.Some? && (agent == "" || limit <= 0) ==> out.Licensed?
    ensures w.Some? && agent != "" && 0 < limit < TWO63 ==>
              forall x: real, n | Priced(w.value.offer, x, n) && 0 <= n ::
                var consumed := old(B.Count(svc.counts, B.Key(agent, checkedIn)));
                var before := old(B.Count(svc.counts, B.Key(agent, recordedIn)));
                && (0 <= consumed && consumed + n < TWO63 ==> (out.Licensed? <==> consumed + n <= limit))
                && (out.Licensed? && 0 <= before && before + n < TWO63 ==>
                      B.Count(svc.counts, B.Key(agent, recordedIn)) == before + n)
  {
    hide Flat, Rank, Priced, B.CostFixed, ChargeOf, PlanFrom, Routes, SubListsExact, RowsRouted, TargetsRouted, EachOnce, Answers, ReplyOf;
    var found;
    found, w, p := DiscoverWinner(env, net, uris);
    r := found;
    if found.SignError? {
      return SigningFailed, None, r, p;
    }
    if w.None? {
      return NoOffers, None, r, p;
    }
    ghost var all := Flat(OffersOf(r.groups));
    assert |Rank(all)| == |all| by { RankFacts(all); }
    var allowed := B.Gate(svc, agent, limit, B.CostFixed(ChargeOf(w.value.offer)), checkedIn, recordedIn);
    forall x: real, n | Priced(w.value.offer, x, n) && 0 <= n && agent != "" && 0 < limit < TWO63
      ensures old(B.Count(svc.counts, B.Key(agent, checkedIn))) >= 0 &&
              old(B.Count(svc.counts, B.Key(agent, checkedIn))) + n < TWO63 ==>
                (allowed <==> old(B.Count(svc.counts, B.Key(agent, checkedIn))) + n <= limit)
      ensures allowed && old(B.Count(svc.counts, B.Key(agent, recordedIn))) >= 0 &&
              old(B.Count(svc.counts, B.Key(agent, recordedIn))) + n < TWO63 ==>
                B.Count(svc.counts, B.Key(agent, recordedIn)) == old(B.Count(svc.counts, B.Key(agent, recordedIn))) + n
    {
      PricedGate(w.value.offer, x, n, agent, limit, old(svc.counts),
                 old(B.Count(svc.counts, B.Key(agent, checkedIn))), B.Key(agent, recordedIn));
    }
    if !allowed {
      return BudgetExhausted, w, r, p;
    }
    out := Licensed(found.groups, w.value.exchange.domain);
  }
}

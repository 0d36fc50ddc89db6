/** Offer selection: one candidate per identity, a stable ranking, and the
    tournament that picks the winner of a batch from the per-group heads. */
module Selection {
  import opened Text

  /** What the money parser makes of a wire money string. */
  type Money = Option<real>

  datatype Pricing = Pricing(unitCost: Option<Money>, rate: Money, quantity: int)

  datatype Identity = Identity(
    canonicalUrl: Option<string>, doi: Option<string>, iptcGuid: Option<string>, contentHash: Option<string>)

  datatype Offer = Offer(id: string, pricing: Option<Pricing>, identity: Option<Identity>)

  datatype ExchangeRef = ExchangeRef(domain: string, endpoint: string, trust: string, priority: int)

  datatype Candidate = Candidate(offer: Offer, exchange: ExchangeRef)

  function OrZero(m: Money): real { if m.Some? then m.value else 0.0 }

  /** The unit cost when present, else the rate; anything missing counts as zero. */
  function OfferCharge(o: Offer): real {
    if o.pricing.None? then 0.0
    else if o.pricing.value.unitCost.Some? then OrZero(o.pricing.value.unitCost.value)
    else OrZero(o.pricing.value.rate)
  }

  function Charge(c: Candidate): real { OfferCharge(c.offer) }

  function TrustWeight(level: string): int {
    var l := Lower(level);
    if l == "preferred" then 3
    else if l == "verified" then 2
    else if l == "discovered" then 1
    else if l == "blocked" then -1
    else 0
  }

  function Present(s: Option<string>): bool { s.Some? && s.value != "" }

  function IdentityKey(o: Offer): string {
    if o.identity.None? then "offer:" + o.id
    else
      var i := o.identity.value;
      if Present(i.canonicalUrl) then "url:" + i.canonicalUrl.value
      else if Present(i.doi) then "doi:" + i.doi.value
      else if Present(i.iptcGuid) then "iptc:" + i.iptcGuid.value
      else if Present(i.contentHash) then "hash:" + i.contentHash.value
      else "offer:" + o.id
  }

  function KeyOf(c: Candidate): string { IdentityKey(c.offer) }

  /******* The ranking order *******/

  predicate StrLess(a: string, b: string) {
    if b == "" then false
    else if a == "" then true
    else if a[0] != b[0] then a[0] < b[0]
    else StrLess(a[1..], b[1..])
  }

  lemma {:induction false} StrTotal(a: string, b: string)
    ensures StrLess(a, b) || StrLess(b, a) || a == b
    ensures !(StrLess(a, b) && StrLess(b, a))
    ensures a == b ==> !StrLess(a, b)
  {
    if a == "" || b == "" || a[0] != b[0] {
    } else {
      StrTotal(a[1..], b[1..]);
      assert a == [a[0]] + a[1..] && b == [b[0]] + b[1..];
    }
  }

  lemma {:induction false} StrTransitive(a: string, b: string, c: string)
    requires StrLess(a, b) && StrLess(b, c)
    ensures StrLess(a, c)
  {
    if a == "" || !(a[0] == b[0] == c[0]) {
    } else {
      StrTransitive(a[1..], b[1..], c[1..]);
    }
  }

  /** Higher trust, then lower charge, then higher priority, then lower offer id. */
  predicate Less(a: Candidate, b: Candidate) {
    var ta, tb := TrustWeight(a.exchange.trust), TrustWeight(b.exchange.trust);
    if ta != tb then ta > tb
    else if Charge(a) != Charge(b) then Charge(a) < Charge(b)
    else if a.exchange.priority != b.exchange.priority then a.exchange.priority > b.exchange.priority
    else StrLess(a.offer.id, b.offer.id)
  }

  /** Equal on all four counts. */
  predicate Ties(a: Candidate, b: Candidate) {
    && TrustWeight(a.exchange.trust) == TrustWeight(b.exchange.trust) && Charge(a) == Charge(b)
    && a.exchange.priority == b.exchange.priority && a.offer.id == b.offer.id
  }

  lemma LessTotal(a: Candidate, b: Candidate)
    ensures Less(a, b) || Less(b, a) || Ties(a, b)
    ensures !(Less(a, b) && Less(b, a)) && !(Less(a, b) && Ties(a, b)) && !(Less(b, a) && Ties(a, b))
  {
    hide TrustWeight, OfferCharge;
    StrTotal(a.offer.id, b.offer.id);
  }

  lemma LessTransitive(a: Candidate, b: Candidate, c: Candidate)
    ensures Less(a, b) && Less(b, c) ==> Less(a, c)
    ensures Ties(a, b) && Less(b, c) ==> Less(a, c)
    ensures Less(a, b) && Ties(b, c) ==> Less(a, c)
    ensures Ties(a, b) && Ties(b, c) ==> Ties(a, c)
  {
    hide TrustWeight, OfferCharge;
    if StrLess(a.offer.id, b.offer.id) && StrLess(b.offer.id, c.offer.id) {
      StrTransitive(a.offer.id, b.offer.id, c.offer.id);
    }
  }

  /** Not after: the order ranked lists are in. */
  predicate Leq(a: Candidate, b: Candidate) { !Less(b, a) }

  lemma LeqTransitive(a: Candidate, b: Candidate, c: Candidate)
    requires Leq(a, b) && Leq(b, c)
    ensures Leq(a, c)
    ensures Less(a, b) || Less(b, c) ==> Less(a, c)
  {
    hide Less, Ties;
    LessTotal(a, b);
    LessTotal(b, c);
    LessTotal(a, c);
    LessTransitive(a, b, c);
  }

  predicate Ranked(s: seq<Candidate>) { forall i, j | 0 <= i < j < |s| :: Leq(s[i], s[j]) }

  /******* Rank *******/

  /** x goes after everything it does not beat. */
  function Insert(r: seq<Candidate>, x: Candidate): seq<Candidate> {
    if r != [] && Less(x, r[|r| - 1]) then Insert(r[..|r| - 1], x) + [r[|r| - 1]] else r + [x]
  }

  function Rank(s: seq<Candidate>): seq<Candidate> {
    if s == [] then [] else Insert(Rank(s[..|s| - 1]), s[|s| - 1])
  }

  /** The elements that tie with x, in order. */
  function TiedWith(s: seq<Candidate>, x: Candidate): seq<Candidate> {
    if s == [] then []
    else
      var rest := TiedWith(s[..|s| - 1], x);
      if Ties(s[|s| - 1], x) then rest + [s[|s| - 1]] else rest
  }

  lemma {:induction false} InsertFacts(r: seq<Candidate>, x: Candidate)
    requires Ranked(r)
    ensures var out := Insert(r, x);
            && Ranked(out) && |out| == |r| + 1 && multiset(out) == multiset(r) + multiset{x}
            && (forall i | 0 <= i < |out| :: out[i] == x || out[i] in r)
  {
    hide Less;
    if r != [] && Less(x, r[|r| - 1]) {
      var init, last := r[..|r| - 1], r[|r| - 1];
      InsertFacts(init, x);
      var out := Insert(init, x);
      assert r == init + [last];
      LessTotal(x, last);
      forall i | 0 <= i < |out|
        ensures Leq(out[i], last)
      {
        if out[i] != x {
          var k :| 0 <= k < |init| && init[k] == out[i];
        }
      }
    } else {
      forall i | 0 <= i < |r|
        ensures Leq(r[i], x)
      {
        if i < |r| - 1 {
          LeqTransitive(r[i], r[|r| - 1], x);
        }
      }
    }
  }

  lemma NothingRanked()
    ensures Ranked([])
  {
  }

  lemma {:induction false} RankFacts(s: seq<Candidate>)
    ensures Ranked(Rank(s)) && |Rank(s)| == |s| && multiset(Rank(s)) == multiset(s)
  {
    hide Insert, Ranked;
    assert Ranked([]) by { NothingRanked(); }
    if s == [] {
    } else {
      var init, last := s[..|s| - 1], s[|s| - 1];
      RankFacts(init);
      InsertFacts(Rank(init), last);
      assert s == init + [last];
    }
  }

  lemma {:induction false} InsertStable(r: seq<Candidate>, x: Candidate, y: Candidate)
    requires Ranked(r)
    ensures TiedWith(Insert(r, x), y) == TiedWith(r + [x], y)
  {
    hide Less, Ties;
    assert (r + [x])[..|r|] == r;
    if r != [] && Less(x, r[|r| - 1]) {
      var init, last := r[..|r| - 1], r[|r| - 1];
      InsertStable(init, x, y);
      assert (Insert(init, x) + [last])[..|Insert(init, x)|] == Insert(init, x);
      assert (init + [x])[..|init|] == init;
      if Ties(x, y) && Ties(last, y) {
        TieSymmetric(last, y);
        LessTransitive(x, y, last);
        LessTotal(x, last);
        assert false;
      }
    }
  }

  lemma TieSymmetric(a: Candidate, b: Candidate)
    ensures Ties(a, b) <==> Ties(b, a)
  {
  }

  /** Rank is stable: tied candidates keep their order. */
  lemma {:induction false} RankStable(s: seq<Candidate>, y: Candidate)
    ensures TiedWith(Rank(s), y) == TiedWith(s, y)
  {
    if s == [] {
    } else {
      var init, last := s[..|s| - 1], s[|s| - 1];
      RankStable(init, y);
      RankFacts(init);
      InsertStable(Rank(init), last, y);
      assert (Rank(init) + [last])[..|Rank(init)|] == Rank(init);
    }
  }

  lemma RankNext(s: seq<Candidate>, i: nat)
    requires i < |s|
    ensures Rank(s[..i + 1]) == Insert(Rank(s[..i]), s[i])
  {
    hide Insert;
    assert s[..i + 1][..i] == s[..i];
  }

  lemma InsertStep(done: seq<Candidate>, j: nat, x: Candidate)
    requires j <= |done|
    ensures j > 0 && Less(x, done[j - 1]) ==>
              Insert(done[..j], x) + done[j..] == Insert(done[..j - 1], x) + done[j - 1..]
    ensures !(j > 0 && Less(x, done[j - 1])) ==> Insert(done[..j], x) == done[..j] + [x]
  {
    hide Less;
    if j > 0 {
      assert done[..j][..j - 1] == done[..j - 1];
      assert [done[j - 1]] + done[j..] == done[j - 1..];
    }
  }

  /** done with x moved in at j. */
  predicate MovedIn(b: seq<Candidate>, done: seq<Candidate>, x: Candidate, j: nat) {
    && j <= |done| && |b| == |done| + 1 && b[j] == x
    && (forall k | 0 <= k < j :: b[k] == done[k]) && (forall k | j < k < |b| :: b[k] == done[k - 1])
  }

  lemma MovedInIs(b: seq<Candidate>, done: seq<Candidate>, x: Candidate, j: nat)
    requires MovedIn(b, done, x, j)
    ensures b == done[..j] + [x] + done[j..]
  {
  }

  /** Moves a[i] back past every earlier element it beats. */
  method InsertInPlace(a: array<Candidate>, i: nat)
    requires i < a.Length
    modifies a
    ensures a[..i + 1] == Insert(old(a[..i]), old(a[i]))
    ensures a[i + 1..] == old(a[i + 1..])
  {
    hide Less, Insert;
    ghost var x := a[i];
    ghost var done := a[..i];
    var j := i;
    assert done[..i] == done && done[i..] == [];
    while j > 0 && Less(a[j], a[j - 1])
      invariant 0 <= j <= i && MovedIn(a[..i + 1], done, x, j)
      invariant forall k | i < k < a.Length :: a[k] == old(a[k])
      invariant Insert(done, x) == Insert(done[..j], x) + done[j..]
    {
      assert a[..i + 1][j] == x && a[..i + 1][j - 1] == done[j - 1];
      InsertStep(done, j, x);
      a[j], a[j - 1] := a[j - 1], a[j];
      j := j - 1;
    }
    assert j > 0 ==> a[..i + 1][j] == x && a[..i + 1][j - 1] == done[j - 1];
    InsertStep(done, j, x);
    MovedInIs(a[..i + 1], done, x, j);
  }

  /** Rank, in place. */
  method RankInPlace(a: array<Candidate>)
    modifies a
    ensures a[..] == Rank(old(a[..]))
  {
    hide Less, Insert, Rank;
    ghost var s := a[..];
    RankNothing();
    assert s[..0] == [] && a[..0] == [];
    for i := 0 to a.Length
      invariant a[..i] == Rank(s[..i]) && a[i..] == s[i..]
    {
      RankNext(s, i);
      assert a[i] == a[i..][0] == s[i];
      assert a[i + 1..] == a[i..][1..] == s[i + 1..];
      InsertInPlace(a, i);
    }
    assert a[..a.Length] == a[..] && s[..a.Length] == s;
  }

  lemma RankNothing()
    ensures Rank([]) == []
  {
  }

  /******* What determines the ranking *******/

  lemma {:induction false} TiedMembers(s: seq<Candidate>, y: Candidate, x: Candidate)
    ensures x in TiedWith(s, y) <==> x in s && Ties(x, y)
  {
    hide Ties;
    if s == [] {
    } else {
      TiedMembers(s[..|s| - 1], y, x);
      assert s == s[..|s| - 1] + [s[|s| - 1]];
    }
  }

  lemma TieReflexive(a: Candidate)
    ensures Ties(a, a)
  {
  }

  /** The last of a ranked list is not before any element of it. */
  lemma LastIsLast(r: seq<Candidate>, x: Candidate)
    requires Ranked(r) && x in r
    ensures Leq(x, r[|r| - 1])
  {
    hide Less;
    var i :| 0 <= i < |r| && r[i] == x;
    LessTotal(x, x);
  }

  lemma LeqBothWays(a: Candidate, b: Candidate)
    requires Leq(a, b) && Leq(b, a)
    ensures Ties(a, b)
  {
    LessTotal(a, b);
  }

  /** Two ranked lists that agree on every class of ties are the same list. */
  lemma {:induction false} RankedByTies(r1: seq<Candidate>, r2: seq<Candidate>)
    requires Ranked(r1) && Ranked(r2)
    requires forall y :: TiedWith(r1, y) == TiedWith(r2, y)
    ensures r1 == r2
  {
    hide Less, Ties;
    if r1 == [] {
      if r2 != [] {
        SharedLast(r2, r1);
      }
    } else {
      SharedLast(r1, r2);
      SharedLast(r2, r1);
      var l1, l2 := r1[|r1| - 1], r2[|r2| - 1];
      LastTied(r1);
      LastTied(r2);
      LeqBothWays(l1, l2);
      var i1, i2 := r1[..|r1| - 1], r2[..|r2| - 1];
      forall y
        ensures TiedWith(i1, y) == TiedWith(i2, y)
      {
        assert TiedWith(r1, y) == TiedWith(r2, y);
        if Ties(l1, y) {
          assert (TiedWith(i1, y) + [l1])[..|TiedWith(i1, y)|] == TiedWith(i1, y);
          assert (TiedWith(i2, y) + [l2])[..|TiedWith(i2, y)|] == TiedWith(i2, y);
        }
      }
      RankedByTies(i1, i2);
    }
  }

  lemma LastTied(r: seq<Candidate>)
    requires r != []
    ensures var t := TiedWith(r, r[|r| - 1]); t != [] && t[|t| - 1] == r[|r| - 1]
  {
    hide Ties;
    TieReflexive(r[|r| - 1]);
  }

  /** The last element of one is in the other, hence not after its last. */
  lemma SharedLast(r1: seq<Candidate>, r2: seq<Candidate>)
    requires r1 != [] && Ranked(r2)
    requires forall y :: TiedWith(r1, y) == TiedWith(r2, y)
    ensures r1[|r1| - 1] in r2 && Leq(r1[|r1| - 1], r2[|r2| - 1])
  {
    hide Less, Ties, Ranked;
    var l := r1[|r1| - 1];
    TieReflexive(l);
    TiedMembers(r1, l, l);
    assert TiedWith(r1, l) == TiedWith(r2, l);
    TiedMembers(r2, l, l);
    LastIsLast(r2, l);
  }

  ghost predicate SameTies(r: seq<Candidate>, s: seq<Candidate>) { forall y :: TiedWith(r, y) == TiedWith(s, y) }

  lemma RankSameTies(s: seq<Candidate>)
    ensures SameTies(Rank(s), s)
  {
    forall y
      ensures TiedWith(Rank(s), y) == TiedWith(s, y)
    {
      RankStable(s, y);
    }
  }

  /** A list is Rank(s) exactly when it is a stable sort of s by the ranking
      order: ranked, and tied candidates in their given order. */
  lemma RankIsTheStableSort(s: seq<Candidate>, r: seq<Candidate>)
    ensures Ranked(r) && SameTies(r, s) <==> r == Rank(s)
  {
    hide Ranked, Rank;
    RankFacts(s);
    RankSameTies(s);
    if Ranked(r) && SameTies(r, s) {
      RankedByTies(r, Rank(s));
    }
  }

  /******* Independence of the input order *******/

  predicate TieFree(s: seq<Candidate>) { forall i, j | 0 <= i < j < |s| :: !Ties(s[i], s[j]) }

  predicate NoRepeats(s: seq<Candidate>) { forall i, j | 0 <= i < j < |s| :: s[i] != s[j] }

  /** Ranked lists of the same tie-free candidates end alike. */
  lemma SameLast(r1: seq<Candidate>, r2: seq<Candidate>)
    requires Ranked(r1) && Ranked(r2) && multiset(r1) == multiset(r2) && TieFree(r1) && r1 != []
    ensures |r1| == |r2| && r1[|r1| - 1] == r2[|r2| - 1]
  {
    hide Less, Ties, Ranked;
    assert |r1| == |multiset(r1)| == |multiset(r2)| == |r2|;
    var l1, l2 := r1[|r1| - 1], r2[|r2| - 1];
    assert l1 in multiset(r2) && l2 in multiset(r1);
    LastIsLast(r1, l2);
    LastIsLast(r2, l1);
    LeqBothWays(l1, l2);
    TieSymmetric(l1, l2);
    var i :| 0 <= i < |r1| && r1[i] == l2;
  }

  lemma WithoutLast(r: seq<Candidate>)
    requires r != []
    ensures multiset(r[..|r| - 1]) == multiset(r) - multiset{r[|r| - 1]}
    ensures Ranked(r) ==> Ranked(r[..|r| - 1])
    ensures TieFree(r) ==> TieFree(r[..|r| - 1])
    ensures r == r[..|r| - 1] + [r[|r| - 1]]
  {
    hide Less, Ties;
    assert r == r[..|r| - 1] + [r[|r| - 1]];
  }

  lemma {:induction false} TieFreeUnique(r1: seq<Candidate>, r2: seq<Candidate>)
    requires Ranked(r1) && Ranked(r2) && multiset(r1) == multiset(r2) && TieFree(r1)
    ensures r1 == r2
  {
    hide Ranked, TieFree;
    if r1 == [] {
      assert |multiset(r2)| == 0;
    } else {
      SameLast(r1, r2);
      WithoutLast(r1);
      WithoutLast(r2);
      TieFreeUnique(r1[..|r1| - 1], r2[..|r2| - 1]);
    }
  }

  lemma TieFreePermuted(p: seq<Candidate>, q: seq<Candidate>)
    requires TieFree(p) && multiset(p) == multiset(q)
    ensures TieFree(q)
  {
    hide Ties;
    forall i, j | 0 <= i < j < |q|
      ensures !Ties(q[i], q[j])
    {
      TieReflexive(q[i]);
      if q[i] == q[j] {
        RepeatCounts(q, i, j);
        SingleCounts(p, q[i]);
      } else {
        assert q[i] in multiset(q) && q[j] in multiset(q);
        var a :| 0 <= a < |p| && p[a] == q[i];
        var b :| 0 <= b < |p| && p[b] == q[j];
        TieSymmetric(q[i], q[j]);
      }
    }
  }

  lemma RepeatCounts(q: seq<Candidate>, i: nat, j: nat)
    requires i < j < |q| && q[i] == q[j]
    ensures multiset(q)[q[i]] >= 2
  {
    assert q == q[..i] + [q[i]] + q[i + 1..j] + [q[j]] + q[j + 1..];
  }

  lemma {:induction false} SingleCounts(p: seq<Candidate>, x: Candidate)
    requires TieFree(p)
    ensures multiset(p)[x] <= 1
  {
    hide Ties;
    if p == [] {
    } else {
      var init, last := p[..|p| - 1], p[|p| - 1];
      assert p == init + [last];
      SingleCounts(init, x);
      TieReflexive(x);
      if last == x && x in init {
        assert false;
      }
    }
  }

  function Reversed(s: seq<Candidate>): seq<Candidate> {
    if s == [] then [] else [s[|s| - 1]] + Reversed(s[..|s| - 1])
  }

  lemma {:induction false} ReversedFacts(s: seq<Candidate>)
    ensures |Reversed(s)| == |s| && multiset(Reversed(s)) == multiset(s)
    ensures forall i | 0 <= i < |s| :: Reversed(s)[i] == s[|s| - 1 - i]
  {
    if s == [] {
    } else {
      ReversedFacts(s[..|s| - 1]);
      assert s == s[..|s| - 1] + [s[|s| - 1]];
    }
  }

  lemma {:induction false} TiedConcat(a: seq<Candidate>, b: seq<Candidate>, y: Candidate)
    ensures TiedWith(a + b, y) == TiedWith(a, y) + TiedWith(b, y)
  {
    hide Ties;
    if b == [] {
      assert a + b == a;
    } else {
      assert (a + b)[..|a + b| - 1] == a + b[..|b| - 1];
      TiedConcat(a, b[..|b| - 1], y);
    }
  }

  lemma {:induction false} TiedReversed(s: seq<Candidate>, y: Candidate)
    ensures TiedWith(Reversed(s), y) == Reversed(TiedWith(s, y))
  {
    hide Ties;
    if s == [] {
    } else {
      var init, last := s[..|s| - 1], s[|s| - 1];
      TiedReversed(init, y);
      TiedConcat([last], Reversed(init), y);
      assert [last][..0] == [];
      var t := TiedWith(init, y);
      assert (t + [last])[..|t|] == t;
    }
  }

  /** The first and the last of the elements tied with s[i] differ. */
  lemma TwoTied(s: seq<Candidate>, i: nat, j: nat)
    requires NoRepeats(s) && i < j < |s| && Ties(s[i], s[j])
    ensures Reversed(TiedWith(s, s[i])) != TiedWith(s, s[i])
  {
    hide Ties;
    var y := s[i];
    var a, b := s[..j], s[j..];
    assert s == a + b;
    TiedConcat(a, b, y);
    TieReflexive(y);
    TieSymmetric(s[i], s[j]);
    TiedMembers(a, y, y);
    TiedMembers(b, y, s[j]);
    var t := TiedWith(s, y);
    ReversedFacts(t);
    var first, last := t[0], t[|t| - 1];
    assert first in TiedWith(a, y) && last in TiedWith(b, y);
    TiedMembers(a, y, first);
    TiedMembers(b, y, last);
    assert first != last;
  }

  /** The ranking is the same for every order of the same distinct candidates
      exactly when no two of them tie on trust, charge, priority and offer id. */
  lemma RankIgnoresOrderIff(p: seq<Candidate>)
    requires NoRepeats(p)
    ensures (forall q | multiset(q) == multiset(p) :: Rank(q) == Rank(p)) <==> TieFree(p)
  {
    hide Rank, Ties, Ranked;
    RankFacts(p);
    if TieFree(p) {
      forall q | multiset(q) == multiset(p)
        ensures Rank(q) == Rank(p)
      {
        RankFacts(q);
        TieFreePermuted(p, Rank(p));
        TieFreeUnique(Rank(p), Rank(q));
      }
    } else {
      var i, j :| 0 <= i < j < |p| && Ties(p[i], p[j]);
      ReversedFacts(p);
      RankStable(p, p[i]);
      RankStable(Reversed(p), p[i]);
      TiedReversed(p, p[i]);
      TwoTied(p, i, j);
      assert multiset(Reversed(p)) == multiset(p) && Rank(Reversed(p)) != Rank(p);
    }
  }

  /******* Dedup *******/

  /** The survivor of each identity: replaced only by a strictly lower charge. */
  function Best(cands: seq<Candidate>): map<string, Candidate> {
    if cands == [] then map[]
    else
      var best := Best(cands[..|cands| - 1]);
      var c := cands[|cands| - 1];
      if KeyOf(c) !in best || Charge(c) < Charge(best[KeyOf(c)]) then best[KeyOf(c) := c] else best
  }

  /** cands[i] is the first of its identity with the lowest charge. */
  predicate FirstCheapest(cands: seq<Candidate>, i: nat)
    requires i < |cands|
  {
    forall j | 0 <= j < |cands| && KeyOf(cands[j]) == KeyOf(cands[i]) ::
      if j < i then Charge(cands[i]) < Charge(cands[j]) else Charge(cands[i]) <= Charge(cands[j])
  }

  lemma {:induction false} BestIsFirstCheapest(cands: seq<Candidate>, key: string)
    ensures key in Best(cands) <==> exists i | 0 <= i < |cands| :: KeyOf(cands[i]) == key
    ensures key in Best(cands) ==>
              exists i | 0 <= i < |cands| ::
                KeyOf(cands[i]) == key && cands[i] == Best(cands)[key] && FirstCheapest(cands, i)
  {
    hide IdentityKey, OfferCharge;
    if cands == [] {
    } else {
      var n := |cands| - 1;
      var init := cands[..n];
      BestIsFirstCheapest(init, key);
      if KeyOf(cands[n]) == key && (key !in Best(init) || Charge(cands[n]) < Charge(Best(init)[key])) {
        if key in Best(init) {
          var k :| 0 <= k < |init| && KeyOf(init[k]) == key && init[k] == Best(init)[key] && FirstCheapest(init, k);
          assert forall j | 0 <= j < n && KeyOf(cands[j]) == key :: KeyOf(init[j]) == key && Charge(init[k]) <= Charge(cands[j]);
        } else {
          assert forall j | 0 <= j < n :: KeyOf(init[j]) == KeyOf(cands[j]);
        }
        assert FirstCheapest(cands, n);
      } else if key in Best(init) {
        var k :| 0 <= k < |init| && KeyOf(init[k]) == key && init[k] == Best(init)[key] && FirstCheapest(init, k);
        assert forall j | 0 <= j < n :: init[j] == cands[j];
        assert FirstCheapest(cands, k);
      } else if KeyOf(cands[n]) != key {
        assert forall j | 0 <= j < n :: init[j] == cands[j];
      }
    }
  }

  /** s lists the values of m, each once, in some order. */
  ghost predicate Lists(m: map<string, Candidate>, s: seq<Candidate>) {
    && |s| == |m|
    && (forall i | 0 <= i < |s| :: KeyOf(s[i]) in m && m[KeyOf(s[i])] == s[i])
    && (forall i, j | 0 <= i < j < |s| :: KeyOf(s[i]) != KeyOf(s[j]))
  }

  predicate Keyed(m: map<string, Candidate>) { forall k | k in m :: KeyOf(m[k]) == k }

  lemma {:induction false} BestKeyed(cands: seq<Candidate>)
    ensures Keyed(Best(cands))
  {
    hide IdentityKey, OfferCharge;
    if cands == [] {
    } else {
      BestKeyed(cands[..|cands| - 1]);
    }
  }

  /** The map's values come out in whatever order the map is iterated. */
  method Dedup(cands: seq<Candidate>) returns (out: seq<Candidate>)
    ensures Lists(Best(cands), out)
  {
    hide IdentityKey, OfferCharge;
    var best: map<string, Candidate> := map[];
    for i := 0 to |cands|
      invariant best == Best(cands[..i])
    {
      assert cands[..i + 1][..i] == cands[..i];
      var c := cands[i];
      if KeyOf(c) !in best {
        best := best[KeyOf(c) := c];
      } else if Charge(c) < Charge(best[KeyOf(c)]) {
        best := best[KeyOf(c) := c];
      }
    }
    assert cands[..|cands|] == cands;
    BestKeyed(cands);
    out := [];
    var todo := best.Keys;
    while todo != {}
      invariant todo <= best.Keys && |out| + |todo| == |best.Keys|
      invariant forall i | 0 <= i < |out| ::
                  KeyOf(out[i]) in best && best[KeyOf(out[i])] == out[i] && KeyOf(out[i]) !in todo
      invariant forall i, j | 0 <= i < j < |out| :: KeyOf(out[i]) != KeyOf(out[j])
      decreases todo
    {
      var k :| k in todo;
      out := out + [best[k]];
      todo := todo - {k};
    }
  }

  /** Two listings of one map hold the same candidates. */
  lemma {:induction false} ListsSame(m: map<string, Candidate>, p: seq<Candidate>, q: seq<Candidate>)
    requires Lists(m, p) && Lists(m, q)
    ensures multiset(p) == multiset(q)
  {
    forall c
      ensures multiset(p)[c] == multiset(q)[c]
    {
      ListsCount(m, p, c);
      ListsCount(m, q, c);
    }
  }

  ghost predicate Holds(m: map<string, Candidate>, c: Candidate) { KeyOf(c) in m && m[KeyOf(c)] == c }

  lemma ListsCount(m: map<string, Candidate>, p: seq<Candidate>, c: Candidate)
    requires Lists(m, p)
    ensures multiset(p)[c] == if Holds(m, c) then 1 else 0
  {
    hide IdentityKey;
    var keys := set i | 0 <= i < |p| :: KeyOf(p[i]);
    KeysOf(p, keys);
    assert keys <= m.Keys;
    SubsetSameSize(keys, m.Keys);
    if Holds(m, c) {
      assert KeyOf(c) in keys;
      var i :| 0 <= i < |p| && KeyOf(p[i]) == KeyOf(c);
      assert p[i] == c;
      OnceAt(p, i);
    } else {
      assert c !in p;
    }
  }

  lemma OnceAt(p: seq<Candidate>, i: nat)
    requires i < |p| && forall a, b | 0 <= a < b < |p| :: KeyOf(p[a]) != KeyOf(p[b])
    ensures multiset(p)[p[i]] == 1
  {
    hide IdentityKey;
    assert p == p[..i] + [p[i]] + p[i + 1..];
    assert p[i] !in p[..i] && p[i] !in p[i + 1..];
  }

  lemma {:induction false} KeysOf(p: seq<Candidate>, keys: set<string>)
    requires forall a, b | 0 <= a < b < |p| :: KeyOf(p[a]) != KeyOf(p[b])
    requires keys == set i | 0 <= i < |p| :: KeyOf(p[i])
    ensures |keys| == |p|
  {
    hide IdentityKey;
    if p == [] {
    } else {
      var init, last := p[..|p| - 1], KeyOf(p[|p| - 1]);
      var rest := set i | 0 <= i < |init| :: KeyOf(init[i]);
      KeysOf(init, rest);
      assert keys == rest + {last};
      assert last !in rest;
    }
  }

  lemma SubsetSameSize(a: set<string>, b: set<string>)
    requires a <= b && |a| == |b|
    ensures a == b
  {
    assert |b - a| == 0;
  }

  /** Whatever order the map is iterated in, the ranked survivors are one list,
      exactly when no two survivors tie. */
  lemma RankDedupDeterministicIff(cands: seq<Candidate>, p: seq<Candidate>)
    requires Lists(Best(cands), p)
    ensures (forall q | Lists(Best(cands), q) :: Rank(q) == Rank(p)) <==> TieFree(p)
  {
    hide Rank, Best, Ties;
    var m := Best(cands);
    assert NoRepeats(p);
    RankIgnoresOrderIff(p);
    if TieFree(p) {
      forall q | Lists(m, q)
        ensures Rank(q) == Rank(p)
      {
        ListsSame(m, p, q);
      }
    } else {
      var q :| multiset(q) == multiset(p) && Rank(q) != Rank(p);
      PermutedLists(m, p, q);
    }
  }

  lemma PermutedLists(m: map<string, Candidate>, p: seq<Candidate>, q: seq<Candidate>)
    requires Lists(m, p) && multiset(q) == multiset(p)
    ensures Lists(m, q)
  {
    hide IdentityKey;
    assert |q| == |multiset(q)| == |multiset(p)| == |p|;
    forall i | 0 <= i < |q|
      ensures Holds(m, q[i])
    {
      assert q[i] in multiset(p);
    }
    forall i, j | 0 <= i < j < |q|
      ensures KeyOf(q[i]) != KeyOf(q[j])
    {
      if KeyOf(q[i]) == KeyOf(q[j]) {
        assert Holds(m, q[i]) && Holds(m, q[j]);
        RepeatCounts(q, i, j);
        ListsCount(m, p, q[i]);
        assert false;
      }
    }
  }

  /** Distinct offer ids are enough. */
  lemma DistinctIdsDeterministic(cands: seq<Candidate>, p: seq<Candidate>, q: seq<Candidate>)
    requires Lists(Best(cands), p) && Lists(Best(cands), q)
    requires forall i, j | 0 <= i < j < |p| :: p[i].offer.id != p[j].offer.id
    ensures Rank(p) == Rank(q)
  {
    RankDedupDeterministicIff(cands, p);
  }

  /******* The ranking in plain terms *******/

  /** s is the lower-case word, in any letter case. */
  predicate Spells(s: string, word: string) {
    && |s| == |word|
    && forall i | 0 <= i < |s| :: s[i] == word[i] || ('A' <= s[i] <= 'Z' && s[i] as int + 32 == word[i] as int)
  }

  predicate LowerCase(word: string) { forall i | 0 <= i < |word| :: 'a' <= word[i] <= 'z' }

  lemma SpellsIff(s: string, word: string)
    requires LowerCase(word)
    ensures Spells(s, word) <==> Lower(s) == word
  {
    if Spells(s, word) {
      assert Lower(s) == word;
    }
    if Lower(s) == word {
      assert forall i | 0 <= i < |s| :: Lower(s)[i] == word[i];
    }
  }

  predicate Unknown(s: string) {
    !Spells(s, "preferred") && !Spells(s, "verified") && !Spells(s, "discovered") && !Spells(s, "blocked")
  }

  /** The same trust level, whatever the letter case; unknown levels are one. */
  predicate SameLevel(a: string, b: string) {
    || (Spells(a, "preferred") && Spells(b, "preferred")) || (Spells(a, "verified") && Spells(b, "verified"))
    || (Spells(a, "discovered") && Spells(b, "discovered")) || (Spells(a, "blocked") && Spells(b, "blocked"))
    || (Unknown(a) && Unknown(b))
  }

  lemma WeightOf(s: string)
    ensures Spells(s, "preferred") <==> TrustWeight(s) == 3
    ensures Spells(s, "verified") <==> TrustWeight(s) == 2
    ensures Spells(s, "discovered") <==> TrustWeight(s) == 1
    ensures Unknown(s) <==> TrustWeight(s) == 0
    ensures Spells(s, "blocked") <==> TrustWeight(s) == -1
  {
    SpellsIff(s, "preferred");
    SpellsIff(s, "verified");
    SpellsIff(s, "discovered");
    SpellsIff(s, "blocked");
    hide Spells, Lower;
    assert |"preferred"| == 9 && |"verified"| == 8 && |"discovered"| == 10 && |"blocked"| == 7;
  }

  /** The offer asks x: its unit cost's amount when one is stated, else its rate's,
      and nothing where there is no such amount. */
  predicate Asks(o: Offer, x: real) {
    match o.pricing
    case None => x == 0.0
    case Some(Pricing(Some(Some(cost)), _, _)) => x == cost
    case Some(Pricing(Some(None), _, _)) => x == 0.0
    case Some(Pricing(None, Some(rate), _)) => x == rate
    case Some(Pricing(None, None, _)) => x == 0.0
  }

  lemma AsksIff(o: Offer, x: real)
    ensures Asks(o, x) <==> x == OfferCharge(o)
  {
    match o.pricing
    case None =>
    case Some(Pricing(Some(Some(_)), _, _)) =>
    case Some(Pricing(Some(None), _, _)) =>
    case Some(Pricing(None, Some(_), _)) =>
    case Some(Pricing(None, None, _)) =>
  }

  /** a comes before b in byte order: they part at k, where a ends or is smaller. */
  predicate PartsAt(a: string, b: string, k: nat) {
    && k <= |a| && k < |b| && a[..k] == b[..k]
    && (k == |a| || a[k] < b[k])
  }

  ghost predicate Before(a: string, b: string) { exists k: nat :: PartsAt(a, b, k) }

  lemma {:induction false} BeforeIff(a: string, b: string)
    ensures StrLess(a, b) <==> Before(a, b)
  {
    if b == "" || a == "" || a[0] != b[0] {
      PartsAtOnce(a, b);
    } else {
      BeforeIff(a[1..], b[1..]);
      if k: nat :| PartsAt(a[1..], b[1..], k) {
        assert a[..k + 1] == [a[0]] + a[1..][..k] && b[..k + 1] == [b[0]] + b[1..][..k];
        assert PartsAt(a, b, k + 1);
      } else if k: nat :| PartsAt(a, b, k) {
        assert k > 0;
        assert a[1..][..k - 1] == a[..k][1..] && b[1..][..k - 1] == b[..k][1..];
        assert PartsAt(a[1..], b[1..], k - 1);
        assert false;
      }
    }
  }

  lemma PartsAtOnce(a: string, b: string)
    requires b == "" || a == "" || a[0] != b[0]
    ensures Before(a, b) <==> b != "" && (a == "" || a[0] < b[0])
  {
    if b != "" && (a == "" || a[0] < b[0]) {
      assert PartsAt(a, b, 0);
    } else if k: nat :| PartsAt(a, b, k) {
      assert false;
    }
  }

  /** Where a may stand before b: no lower trust, then no higher price, then no
      lower priority, then no later offer id. */
  ghost predicate MayPrecede(a: Candidate, b: Candidate) {
    var s, t := a.exchange.trust, b.exchange.trust;
    && (Spells(t, "preferred") ==> Spells(s, "preferred"))
    && (Spells(t, "verified") ==> Spells(s, "preferred") || Spells(s, "verified"))
    && (Spells(t, "discovered") ==> Spells(s, "preferred") || Spells(s, "verified") || Spells(s, "discovered"))
    && (Spells(s, "blocked") ==> Spells(t, "blocked"))
    && (SameLevel(s, t) ==>
          forall x, y | Asks(a.offer, x) && Asks(b.offer, y) ::
            && x <= y
            && (x == y ==> a.exchange.priority >= b.exchange.priority)
            && (x == y && a.exchange.priority == b.exchange.priority ==> !Before(b.offer.id, a.offer.id)))
  }

  lemma LeqIff(a: Candidate, b: Candidate)
    ensures Leq(a, b) <==> MayPrecede(a, b)
  {
    WeightOf(a.exchange.trust);
    WeightOf(b.exchange.trust);
    AsksIff(a.offer, Charge(a));
    AsksIff(b.offer, Charge(b));
    BeforeIff(b.offer.id, a.offer.id);
    hide TrustWeight, OfferCharge, StrLess, Spells, Asks, Before;
    forall x, y
      ensures Asks(a.offer, x) && Asks(b.offer, y) <==> x == Charge(a) && y == Charge(b)
    {
      AsksIff(a.offer, x);
      AsksIff(b.offer, y);
    }
  }

  /** Of any two ranked candidates the earlier has no lower trust, at the same trust
      no higher price, at the same price no lower priority, and then no later id. */
  lemma RankOrder(s: seq<Candidate>, i: nat, j: nat)
    requires i < j < |Rank(s)|
    ensures MayPrecede(Rank(s)[i], Rank(s)[j])
  {
    hide Rank, Less, MayPrecede;
    RankFacts(s);
    LeqIff(Rank(s)[i], Rank(s)[j]);
  }

  /** What identifies an offer's content: the first name its identity carries, else
      the offer itself. */
  datatype Naming = ByUrl(url: string) | ByDoi(doi: string) | ByIptc(guid: string) | ByHash(hash: string) | ByOffer(id: string)

  function NamingOf(o: Offer): Naming {
    match o.identity
    case None => ByOffer(o.id)
    case Some(Identity(url, doi, guid, hash)) =>
      if url.Some? && url.value != "" then ByUrl(url.value)
      else if doi.Some? && doi.value != "" then ByDoi(doi.value)
      else if guid.Some? && guid.value != "" then ByIptc(guid.value)
      else if hash.Some? && hash.value != "" then ByHash(hash.value)
      else ByOffer(o.id)
  }

  function Spelled(n: Naming): string {
    match n
    case ByUrl(v) => "url:" + v
    case ByDoi(v) => "doi:" + v
    case ByIptc(v) => "iptc:" + v
    case ByHash(v) => "hash:" + v
    case ByOffer(v) => "offer:" + v
  }

  lemma SpelledTail(n: Naming)
    ensures n.ByUrl? ==> Spelled(n)[0] == 'u' && Spelled(n)[4..] == n.url
    ensures n.ByDoi? ==> Spelled(n)[0] == 'd' && Spelled(n)[4..] == n.doi
    ensures n.ByIptc? ==> Spelled(n)[0] == 'i' && Spelled(n)[5..] == n.guid
    ensures n.ByHash? ==> Spelled(n)[0] == 'h' && Spelled(n)[5..] == n.hash
    ensures n.ByOffer? ==> Spelled(n)[0] == 'o' && Spelled(n)[6..] == n.id
  {
  }

  lemma SpelledInjective(m: Naming, n: Naming)
    ensures Spelled(m) == Spelled(n) <==> m == n
  {
    SpelledTail(m);
    SpelledTail(n);
  }

  /** Two offers are one identity exactly when the same kind of name, in the order
      URL, DOI, IPTC, hash, offer id, is the first each carries and is equal. */
  lemma SameIdentityIff(a: Offer, b: Offer)
    ensures IdentityKey(a) == IdentityKey(b) <==> NamingOf(a) == NamingOf(b)
  {
    SpelledInjective(NamingOf(a), NamingOf(b));
  }

  /** Deduplication drops a candidate only for one of the same name that asks no more. */
  lemma DedupKeepsCheapest(cands: seq<Candidate>, out: seq<Candidate>, c: Candidate, x: real)
    requires Lists(Best(cands), out) && c in cands && Asks(c.offer, x)
    ensures exists d, y: real ::
              d in out && d in cands && NamingOf(d.offer) == NamingOf(c.offer) && Asks(d.offer, y) && y <= x
  {
    hide IdentityKey, OfferCharge, Best, NamingOf, Asks;
    var key := KeyOf(c);
    BestIsFirstCheapest(cands, key);
    BestKeyed(cands);
    var n :| 0 <= n < |cands| && cands[n] == c;
    var d := Best(cands)[key];
    var i :| 0 <= i < |cands| && KeyOf(cands[i]) == key && cands[i] == d && FirstCheapest(cands, i);
    ListsCount(Best(cands), out, d);
    assert Holds(Best(cands), d) && d in multiset(out);
    SameIdentityIff(d.offer, c.offer);
    AsksIff(c.offer, x);
    AsksIff(d.offer, Charge(d));
    assert Charge(d) <= Charge(c);
  }

  /** And keeps one candidate of a name only. */
  lemma DedupOneEach(cands: seq<Candidate>, out: seq<Candidate>, i: nat, j: nat)
    requires Lists(Best(cands), out) && i < j < |out|
    ensures NamingOf(out[i].offer) != NamingOf(out[j].offer)
  {
    hide IdentityKey, Best, NamingOf;
    SameIdentityIff(out[i].offer, out[j].offer);
  }

  /******* The winner of a batch *******/

  /** The groups' offers one after another. */
  function Flat(groups: seq<seq<Candidate>>): seq<Candidate> {
    if groups == [] then [] else Flat(groups[..|groups| - 1]) + groups[|groups| - 1]
  }

  /** The first candidate that nothing beats. */
  function Head(s: seq<Candidate>): Candidate
    requires s != []
  {
    if |s| == 1 then s[0]
    else
      var h := Head(s[..|s| - 1]);
      if Less(s[|s| - 1], h) then s[|s| - 1] else h
  }

  lemma {:induction false} InsertHead(r: seq<Candidate>, x: Candidate)
    requires Ranked(r)
    ensures Insert(r, x) != []
    ensures Insert(r, x)[0] == if r == [] || Less(x, r[0]) then x else r[0]
  {
    hide Less;
    if r != [] && Less(x, r[|r| - 1]) {
      InsertHead(r[..|r| - 1], x);
      assert |r| > 1 ==> r[..|r| - 1][0] == r[0];
    } else if r != [] && Less(x, r[0]) {
      LessTotal(x, r[0]);
      LeqTransitive(x, r[0], r[|r| - 1]) by { LessTotal(r[0], r[0]); }
      assert false;
    }
  }

  lemma {:induction false} RankHead(s: seq<Candidate>)
    requires s != []
    ensures Rank(s) != [] && Rank(s)[0] == Head(s)
  {
    hide Less, Insert;
    var init, last := s[..|s| - 1], s[|s| - 1];
    RankFacts(init);
    InsertHead(Rank(init), last);
    if init == [] {
      RankNothing();
    } else {
      RankHead(init);
    }
  }

  function Better(a: Candidate, b: Candidate): Candidate { if Less(b, a) then b else a }

  lemma BetterAssociative(a: Candidate, b: Candidate, c: Candidate)
    ensures Better(Better(a, b), c) == Better(a, Better(b, c))
  {
    hide Less, Ties;
    LessTotal(a, b);
    LessTotal(b, c);
    LessTotal(a, c);
    LessTransitive(c, b, a);
    if Leq(a, b) && Leq(b, c) {
      LeqTransitive(a, b, c);
    }
  }

  lemma {:induction false} HeadConcat(a: seq<Candidate>, b: seq<Candidate>)
    requires a != [] && b != []
    ensures Head(a + b) == Better(Head(a), Head(b))
  {
    hide Less;
    var n := |b| - 1;
    assert (a + b)[..|a + b| - 1] == a + b[..n];
    if n == 0 {
      assert a + b[..0] == a;
    } else {
      HeadConcat(a, b[..n]);
      BetterAssociative(Head(a), Head(b[..n]), b[n]);
    }
  }

  lemma {:induction false} RankedHead(s: seq<Candidate>)
    requires s != [] && Ranked(s)
    ensures Head(s) == s[0]
  {
    hide Less;
    if |s| == 1 {
    } else {
      RankedHead(s[..|s| - 1]);
    }
  }

  /** The first offer of every non-empty group. */
  function Heads(groups: seq<seq<Candidate>>): seq<Candidate> {
    if groups == [] then []
    else
      var rest := Heads(groups[..|groups| - 1]);
      var g := groups[|groups| - 1];
      if g != [] then rest + [g[0]] else rest
  }

  lemma {:induction false} HeadsAndFlat(groups: seq<seq<Candidate>>)
    requires forall i | 0 <= i < |groups| :: Ranked(groups[i])
    ensures Heads(groups) == [] <==> Flat(groups) == []
    ensures Flat(groups) != [] ==> Head(Heads(groups)) == Head(Flat(groups))
  {
    hide Less, Ranked, Head;
    if groups == [] {
    } else {
      var init, g := groups[..|groups| - 1], groups[|groups| - 1];
      HeadsAndFlat(init);
      if g != [] {
        RankedHead(g);
        HeadOne(g[0]);
        if Flat(init) != [] {
          HeadConcat(Flat(init), g);
          HeadConcat(Heads(init), [g[0]]);
        } else {
          assert Flat(groups) == g && Heads(groups) == [g[0]];
        }
      } else {
        assert Flat(groups) == Flat(init);
      }
    }
  }

  lemma HeadOne(c: Candidate)
    ensures Head([c]) == c
  {
  }

  /** The tournament over ranked groups picks exactly the first of the stable
      ranking of every offer of the batch, ties included. */
  method Winner(groups: seq<seq<Candidate>>) returns (w: Option<Candidate>)
    requires forall i | 0 <= i < |groups| :: Ranked(groups[i])
    ensures w == if Flat(groups) == [] then None else Some(Rank(Flat(groups))[0])
    ensures w.None? <==> forall i | 0 <= i < |groups| :: groups[i] == []
    ensures w.Some? ==> exists i | 0 <= i < |groups| :: w.value in groups[i]
    ensures w.Some? ==> forall i, c | 0 <= i < |groups| && c in groups[i] :: MayPrecede(w.value, c)
  {
    hide Less, Ranked, Rank, Head, MayPrecede;
    FlatHolds(groups);
    var heads: seq<Candidate> := [];
    for i := 0 to |groups|
      invariant heads == Heads(groups[..i])
    {
      assert groups[..i + 1][..i] == groups[..i];
      if groups[i] != [] {
        heads := heads + [groups[i][0]];
      }
    }
    assert groups[..|groups|] == groups;
    HeadsAndFlat(groups);
    if heads == [] {
      return None;
    }
    RankHead(heads);
    RankHead(Flat(groups));
    var a := new Candidate[|heads|](i requires 0 <= i < |heads| => heads[i]);
    assert a[..] == heads;
    RankInPlace(a);
    w := Some(a[0]);
    WinnerPrecedes(Flat(groups));
  }

  lemma {:induction false} FlatHolds(groups: seq<seq<Candidate>>)
    ensures forall c :: c in Flat(groups) <==> exists i | 0 <= i < |groups| :: c in groups[i]
    ensures Flat(groups) == [] <==> forall i | 0 <= i < |groups| :: groups[i] == []
  {
    if groups == [] {
    } else {
      var n := |groups| - 1;
      FlatHolds(groups[..n]);
      assert forall i | 0 <= i < n :: groups[..n][i] == groups[i];
      forall c
        ensures c in Flat(groups) <==> exists i | 0 <= i < |groups| :: c in groups[i]
      {
        if c in Flat(groups[..n]) {
          var i :| 0 <= i < n && c in groups[..n][i];
          assert c in groups[i];
        }
      }
    }
  }

  /** Nothing in a list outranks the head of its ranking. */
  lemma WinnerPrecedes(s: seq<Candidate>)
    requires s != []
    ensures Rank(s) != [] && Rank(s)[0] in s
    ensures forall c | c in s :: MayPrecede(Rank(s)[0], c)
  {
    hide Less, Rank, Ranked, MayPrecede;
    RankFacts(s);
    var r := Rank(s);
    assert r[0] in multiset(s);
    forall c | c in s
      ensures MayPrecede(r[0], c)
    {
      assert c in multiset(r);
      var k :| 0 <= k < |r| && r[k] == c;
      if k > 0 {
        RankOrder(s, 0, k);
      } else {
        LessTotal(c, c);
        LeqIff(c, c);
      }
    }
  }

  /** No offer of the batch beats the winner, and every offer before the
      winner's place in the batch is beaten by it. */
  lemma {:induction false} HeadBeatsAll(s: seq<Candidate>)
    requires s != []
    ensures exists i | 0 <= i < |s| ::
              s[i] == Head(s) && (forall j | 0 <= j < |s| :: Leq(s[i], s[j])) && (forall j | 0 <= j < i :: Less(s[i], s[j]))
  {
    hide Less;
    var n := |s| - 1;
    LessTotal(s[n], s[n]);
    if n == 0 {
    } else {
      var init := s[..n];
      HeadBeatsAll(init);
      var i :| 0 <= i < n && init[i] == Head(init) && (forall j | 0 <= j < n :: Leq(init[i], init[j])) &&
               (forall j | 0 <= j < i :: Less(init[i], init[j]));
      if Less(s[n], init[i]) {
        forall j | 0 <= j < n
          ensures Less(s[n], s[j])
        {
          assert Leq(init[i], init[j]) && init[j] == s[j];
          LessTotal(s[n], init[i]);
          LeqTransitive(s[n], init[i], s[j]);
        }
        forall j | 0 <= j < |s|
          ensures Leq(s[n], s[j])
        {
          if j < n {
            LessTotal(s[n], s[j]);
          }
        }
        assert s[n] == Head(s);
      } else {
        assert forall j | 0 <= j < n :: init[j] == s[j];
        assert s[i] == Head(s) && (forall j | 0 <= j < |s| :: Leq(s[i], s[j]));
      }
    }
  }
}

/** Signer and verifier as one system under one clock: a bounded-drift signing
    window, the signatures issued under it, and the concurrent replay check. A
    request may carry any signatures at all under other keys, and under the
    honest key only signatures that have been issued. */
module AtMostOnce {
  import opened Text
  import opened Chain
  import opened Instant
  import opened Verifier
  import opened ReplayStore
  import P = ReplayProtocol
  import W = Window
  import S = Signer

  const HONEST: Key := "honest"

  datatype Sys = Sys(net: P.State, window: W.State, issued: set<SigBytes>)

  /** Stamp: a caller reads the shared clock. Sign: a caller whose swap held
      signs any base with the cutoff it was given, created at its own reading or,
      where the signing library stamps created itself, at any later one. */
  datatype Action =
    | Net(a: P.Action)
    | Stamp(caller: nat)
    | Swap(w: W.Action)
    | Sign(caller: nat, base: Base)

  const INIT := Sys(P.INIT, W.INIT, {})

  predicate Issuable(s: Sys, sigs: seq<Verified>) {
    forall i | 0 <= i < |sigs| && sigs[i].publicKey == HONEST :: sigs[i].signature in s.issued
  }

  ghost predicate Enabled(s: Sys, a: Action) {
    match a
    case Net(Start(_, sigs)) => Issuable(s, sigs)
    case Net(_) => true
    case Stamp(_) => true
    case Swap(w) => !w.Read?
    case Sign(caller, base) =>
      && caller in s.window.callers && s.window.callers[caller].Done?
      && s.window.callers[caller].created <= base.params.created && base.params.created * SECOND <= s.net.now
      && base.params.expires == s.window.callers[caller].expires
  }

  ghost function Step(T: nat, ttl: int, s: Sys, a: Action): Sys {
    if !Enabled(s, a) then s
    else
      match a
      case Net(n) => s.(net := P.Step(ttl, s.net, n))
      case Stamp(caller) => s.(window := W.Step(T, s.window, W.Read(caller, s.net.now)))
      case Swap(w) => s.(window := W.Step(T, s.window, w))
      case Sign(_, base) => s.(issued := s.issued + {Ed(HONEST, base)})
  }

  ghost function Run(T: nat, ttl: int, acts: seq<Action>): Sys {
    if acts == [] then INIT else Step(T, ttl, Run(T, ttl, acts[..|acts| - 1]), acts[|acts| - 1])
  }

  /******* Invariant *******/

  /** No caller's clock reading is ahead of the clock. */
  predicate ReadingsPast(s: Sys) {
    forall id | id in s.window.callers ::
      match s.window.callers[id]
      case Reading(now) => now <= s.net.now
      case Loaded(now, _) => now <= s.net.now
      case Done(created, _) => created * SECOND <= s.net.now
  }

  predicate WindowOf(T: nat, v: Verified, at: int) {
    v.created * SECOND <= at && v.expires <= v.created + 2 * T
  }

  predicate IssuedWindow(T: nat, sig: SigBytes, at: int) {
    sig.Ed? && sig.base.params.created * SECOND <= at && sig.base.params.expires <= sig.base.params.created + 2 * T
  }

  predicate IssuedPast(T: nat, s: Sys) {
    forall sig | sig in s.issued :: IssuedWindow(T, sig, s.net.now)
  }

  /** Each step of a request follows the issue of its honest signatures, and
      its commits follow its freshness readings. */
  predicate ThreadTimed(T: nat, t: P.Thread, now: int) {
    && (forall i | 0 <= i < |t.sigs| && t.sigs[i].publicKey == HONEST :: WindowOf(T, t.sigs[i], now))
    && |t.freshAt| <= |t.sigs|
    && (forall i | 0 <= i < |t.freshAt| ::
          && t.freshAt[i] <= now && P.FreshAt(t.sigs[i], t.freshAt[i])
          && (t.sigs[i].publicKey == HONEST ==> WindowOf(T, t.sigs[i], t.freshAt[i])))
    && (forall i | 0 <= i < |t.commits| ::
          i < |t.freshAt| && t.freshAt[i] <= t.commits[i] <= now)
  }

  predicate Timed(T: nat, s: Sys) {
    forall id | id in s.net.threads :: ThreadTimed(T, s.net.threads[id], s.net.now)
  }

  predicate Inv(T: nat, s: Sys) {
    && ReadingsPast(s) && IssuedPast(T, s) && Timed(T, s)
    && W.History(T, s.window) && P.WellFormed(s.net)
  }

  lemma UnixFloor(t: int)
    ensures Unix(t) * SECOND <= t < (Unix(t) + 1) * SECOND
  {
  }

  lemma WindowStep(T: nat, s: Sys, w: W.Action)
    requires ReadingsPast(s) && W.History(T, s.window) && (w.Read? ==> w.now == s.net.now)
    ensures var s' := s.(window := W.Step(T, s.window, w)); ReadingsPast(s') && W.History(T, s'.window)
  {
    hide W.History, W.Next;
    W.StepKeepsHistory(T, s.window, w);
    if w.id in s.window.callers {
      match s.window.callers[w.id]
      case Reading(now) => UnixFloor(now);
      case Loaded(now, _) => UnixFloor(now);
      case Done(_, _) =>
    }
  }

  lemma SignStep(T: nat, s: Sys, caller: nat, base: Base)
    requires ReadingsPast(s) && IssuedPast(T, s) && W.History(T, s.window) && Enabled(s, Sign(caller, base))
    ensures IssuedPast(T, s.(issued := s.issued + {Ed(HONEST, base)}))
  {
    var c := s.window.callers[caller];
    var i :| 0 <= i < |s.window.swaps| && s.window.swaps[i].created == c.created && s.window.swaps[i].expires == c.expires;
    assert W.Follows(T, s.window.swaps, i);
  }

  lemma StartTimed(T: nat, s: Sys, sigs: seq<Verified>)
    requires IssuedPast(T, s) && Issuable(s, sigs) && Linked(sigs)
    ensures ThreadTimed(T, P.NewThread(sigs), s.net.now)
  {
    forall i | 0 <= i < |sigs| && sigs[i].publicKey == HONEST
      ensures WindowOf(T, sigs[i], s.net.now)
    {
      assert LinkedAt(sigs, i);
      assert IssuedWindow(T, sigs[i].signature, s.net.now);
    }
  }

  /** The thread a network action changes stays timed. */
  lemma ThreadStep(T: nat, ttl: int, s: Sys, a: P.Action)
    requires Inv(T, s) && Enabled(s, Net(a)) && P.Enabled(s.net, a) && !a.Tick?
    ensures ThreadTimed(T, P.Step(ttl, s.net, a).threads[a.id], s.net.now)
  {
    hide P.FreshAt, Live, Sweep, Linked;
    if a.Start? {
      P.ReportedIsLinked(a.sigs);
      StartTimed(T, s, a.sigs);
    } else {
      assert ThreadTimed(T, s.net.threads[a.id], s.net.now);
      assert P.ThreadOk(s.net.threads[a.id]);
    }
  }

  lemma TimedLater(T: nat, t: P.Thread, now: int, later: int)
    requires ThreadTimed(T, t, now) && now <= later
    ensures ThreadTimed(T, t, later)
  {
  }

  lemma NetStep(T: nat, ttl: int, s: Sys, a: P.Action)
    requires Inv(T, s) && Enabled(s, Net(a)) && P.WellFormed(P.Step(ttl, s.net, a))
    ensures Inv(T, s.(net := P.Step(ttl, s.net, a)))
  {
    hide P.WellFormed, W.History, Live, Sweep, ThreadTimed;
    var n := P.Step(ttl, s.net, a);
    if P.Enabled(s.net, a) {
      if !a.Tick? {
        ThreadStep(T, ttl, s, a);
      }
      forall id | id in n.threads
        ensures ThreadTimed(T, n.threads[id], n.now)
      {
        if a.Tick? || id != a.id {
          TimedLater(T, s.net.threads[id], s.net.now, n.now);
        }
      }
    }
  }

  lemma StepKeepsInv(T: nat, ttl: int, s: Sys, a: Action)
    requires Inv(T, s) && (a.Net? ==> P.WellFormed(P.Step(ttl, s.net, a.a)))
    ensures Inv(T, Step(T, ttl, s, a))
  {
    if Enabled(s, a) {
      match a
      case Net(n) => NetStep(T, ttl, s, n);
      case Stamp(caller) =>
        hide W.History, P.WellFormed, ThreadTimed;
        WindowStep(T, s, W.Read(caller, s.net.now));
      case Swap(w) =>
        hide W.History, P.WellFormed, ThreadTimed;
        WindowStep(T, s, w);
      case Sign(caller, base) =>
        hide W.History, P.WellFormed, ThreadTimed;
        SignStep(T, s, caller, base);
    }
  }

  lemma {:induction false} RunKeepsInv(T: nat, ttl: int, acts: seq<Action>)
    requires ttl > 0
    ensures Inv(T, Run(T, ttl, acts)) && P.Inv(ttl, Run(T, ttl, acts).net)
  {
    hide P.Inv, Inv;
    if acts == [] {
      InitInv(T, ttl);
    } else {
      var s := Run(T, ttl, acts[..|acts| - 1]);
      var a := acts[|acts| - 1];
      RunKeepsInv(T, ttl, acts[..|acts| - 1]);
      if a.Net? {
        P.StepKeepsInv(ttl, s.net, a.a);
        NetWellFormed(ttl, P.Step(ttl, s.net, a.a));
      }
      StepKeepsInv(T, ttl, s, a);
    }
  }

  lemma NetWellFormed(ttl: int, n: P.State)
    requires P.Inv(ttl, n)
    ensures P.WellFormed(n)
  {
  }

  lemma InitInv(T: nat, ttl: int)
    ensures Inv(T, INIT) && P.Inv(ttl, P.INIT)
  {
  }

  /******* At most once *******/

  /** Request `id` was accepted and recorded every signature within D seconds
      of that signature's freshness check. */
  predicate AcceptedWithin(D: nat, n: P.State, id: P.Id) {
    && id in n.threads && n.threads[id].phase.Accepted?
    && |n.threads[id].commits| == |n.threads[id].sigs| == |n.threads[id].freshAt|
    && forall i | 0 <= i < |n.threads[id].sigs| ::
         n.threads[id].commits[i] <= n.threads[id].freshAt[i] + D * SECOND
  }

  /** A and b are both accepted and carry one honest signature between them. */
  predicate BothAccepted(D: nat, s: Sys, a: P.Id, i: nat, b: P.Id, j: nat) {
    && AcceptedWithin(D, s.net, a) && AcceptedWithin(D, s.net, b)
    && i < |s.net.threads[a].sigs| && j < |s.net.threads[b].sigs|
    && s.net.threads[a].sigs[i].signature == s.net.threads[b].sigs[j].signature
    && s.net.threads[a].sigs[i].publicKey == HONEST
  }

  /** The later commit comes too soon to be ttl after the earlier one. */
  lemma CommitsClose(T: nat, D: nat, ttl: int, s: Sys, a: P.Id, i: nat, b: P.Id, j: nat)
    requires Inv(T, s) && BothAccepted(D, s, a, i, b, j)
    requires (2 * T + 1 + D) * SECOND <= ttl
    ensures s.net.threads[b].commits[j] < s.net.threads[a].commits[i] + ttl
  {
    hide Linked;
    var ta, tb := s.net.threads[a], s.net.threads[b];
    assert ThreadTimed(T, ta, s.net.now) && ThreadTimed(T, tb, s.net.now);
    assert P.ThreadOk(ta) && P.ThreadOk(tb);
    SignedAt(ta.sigs, i);
    SignedAt(tb.sigs, j);
    assert ta.freshAt[i] <= ta.commits[i] && tb.commits[j] <= tb.freshAt[j] + D * SECOND;
    assert P.FreshAt(tb.sigs[j], tb.freshAt[j]);
    UnixFloor(tb.freshAt[j]);
  }

  lemma SignedAt(vs: seq<Verified>, i: nat)
    requires Linked(vs) && i < |vs|
    ensures Signed(vs[i])
  {
    assert LinkedAt(vs, i);
  }

  /** In every run, however long, a signature stamped by the bounded window is
      accepted at most once, when the replay window is at least 2T + 1 + D seconds. */
  lemma HonestAcceptedOnce(T: nat, D: nat, ttl: int, acts: seq<Action>, a: P.Id, i: nat, b: P.Id, j: nat)
    requires BothAccepted(D, Run(T, ttl, acts), a, i, b, j)
    requires (2 * T + 1 + D) * SECOND <= ttl
    ensures a == b && i == j
  {
    hide Run, P.SpacedApart, P.Remembered, P.Owned, P.BurnedOvertaken, P.LooksClear, P.AllTimely, ThreadTimed;
    assert ttl > 0;
    RunKeepsInv(T, ttl, acts);
    var s := Run(T, ttl, acts);
    var ta, tb := s.net.threads[a], s.net.threads[b];
    assert P.ThreadOk(ta) && P.ThreadOk(tb);
    SharedSignature(ta.sigs, i, tb.sigs, j);
    SignedAt(ta.sigs, i);
    SignedAt(tb.sigs, j);
    CommitsClose(T, D, ttl, s, a, i, b, j);
    CommitsClose(T, D, ttl, s, b, j, a, i);
    Spaced(ttl, s.net, a, i, b, j);
  }

  lemma Spaced(ttl: int, n: P.State, a: P.Id, i: nat, b: P.Id, j: nat)
    requires P.SpacedApart(ttl, n) && P.Has(n, a, i) && P.Has(n, b, j) && P.KeyAt(n, a, i) == P.KeyAt(n, b, j)
    ensures (a == b && i == j) || P.TimeAt(n, a, i) + ttl <= P.TimeAt(n, b, j) || P.TimeAt(n, b, j) + ttl <= P.TimeAt(n, a, i)
  {
  }

  /******* The bound is exact *******/

  ghost predicate Reachable(T: nat, ttl: int, s: Sys) { exists acts :: Run(T, ttl, acts) == s }

  lemma StartReachable(T: nat, ttl: int)
    ensures Reachable(T, ttl, INIT)
  {
    assert Run(T, ttl, []) == INIT;
  }

  lemma Go(T: nat, ttl: int, s: Sys, a: Action) returns (s': Sys)
    requires Reachable(T, ttl, s)
    ensures s' == Step(T, ttl, s, a) && Reachable(T, ttl, s')
  {
    var acts :| Run(T, ttl, acts) == s;
    assert (acts + [a])[..|acts|] == acts;
    s' := Step(T, ttl, s, a);
    assert Run(T, ttl, acts + [a]) == s';
  }

  /** n + 1 calls in the first second drive the cutoff n past the plain window. */
  lemma {:induction false} Saturate(T: nat, ttl: int, n: nat) returns (s: Sys)
    requires n <= T
    ensures Reachable(T, ttl, s) && s.net == P.INIT.(now := SECOND) && s.issued == {}
    ensures s.window.last == 1 + T + n && (forall id | id in s.window.callers :: id <= n)
    ensures n in s.window.callers && s.window.callers[n] == W.Done(1, 1 + T + n)
  {
    hide Run, Reachable, Unix;
    if n == 0 {
      StartReachable(T, ttl);
      s := Go(T, ttl, INIT, Net(P.Tick(SECOND)));
    } else {
      s := Saturate(T, ttl, n - 1);
    }
    W.WholeSecond(1);
    s := Go(T, ttl, s, Stamp(n));
    s := Go(T, ttl, s, Swap(W.Load(n)));
    s := Go(T, ttl, s, Swap(W.TrySwap(n)));
  }

  /** A one-signature request is judged fresh now and recorded `delay` later. */
  lemma Accept(T: nat, ttl: int, s: Sys, id: P.Id, v: Verified, delay: nat) returns (s': Sys)
    requires Reachable(T, ttl, s) && id !in s.net.threads && P.Reported([v]) && v.signature in s.issued
    requires P.FreshAt(v, s.net.now) && !Live(s.net.seen, ReplayPair(v), s.net.now + delay)
    ensures Reachable(T, ttl, s') && s'.issued == s.issued
    ensures s'.net == P.State(s.net.now + delay, AfterAdd(s.net.seen, ReplayPair(v), s.net.now + delay, ttl),
                              s.net.threads[id := P.Thread([v], P.Accepted, [s.net.now], [s.net.now + delay], [s.net.now + delay], None)])
  {
    hide Run, Reachable, P.Reported, P.FreshAt, Live, AfterAdd;
    s' := Go(T, ttl, s, Net(P.Start(id, [v])));
    s' := Go(T, ttl, s', Net(P.Fresh(id)));
    assert s'.net.threads[id] == P.Thread([v], P.Checking, [s.net.now], [], [], None);
    s' := Go(T, ttl, s', Net(P.Tick(s.net.now + delay)));
    s' := Go(T, ttl, s', Net(P.Look(id)));
    assert s'.net.threads[id] == P.Thread([v], P.Committing, [s.net.now], [s.net.now + delay], [], None);
    assert s'.net.seen == s.net.seen && s'.net.now == s.net.now + delay && [v][0] == v;
    s' := Go(T, ttl, s', Net(P.Commit(id)));
    assert s'.net.threads[id].commits == [s.net.now + delay];
    assert s'.net.threads == s.net.threads[id := P.Thread([v], P.Accepted, [s.net.now], [s.net.now + delay], [s.net.now + delay], None)];
  }

  /** A one-signature request of the honest signer that a verifier reports, with
      the longest window it stamps in the first second. */
  lemma HonestReport(T: nat) returns (v: Verified)
    ensures P.Reported([v]) && v.signature.Ed? && v.signature.key == v.publicKey == HONEST
    ensures v.signature.base.params.created == 1 && v.signature.base.params.expires == 1 + 2 * T
    ensures P.FreshAt(v, SECOND) && P.FreshAt(v, (2 * T + 2) * SECOND - 1)
  {
    hide VerifyMultisig;
    var hops := [S.Hop(HONEST, HONEST, 1, 1 + 2 * T)];
    var env, r, vs := S.ChainReported(hops);
    v := vs[0];
    assert vs == [v] && S.ReportsHop(vs[0], hops[0]);
    P.ReportedIsLinked([v]);
    SignedAt([v], 0);
    UnixFloor((2 * T + 2) * SECOND - 1);
  }

  /** One nanosecond short of the bound there is a run in which one honest
      signature is accepted twice, each time within D of its freshness check. */
  lemma TwiceBelowBound(T: nat, D: nat, ttl: int)
    requires 0 < ttl < (2 * T + 1 + D) * SECOND
    ensures exists s :: Reachable(T, ttl, s) && BothAccepted(D, s, 0, 0, 1, 0)
  {
    hide Run, Reachable, P.Reported, P.FreshAt;
    var s := Saturate(T, ttl, T);
    var v := HonestReport(T);
    s := Go(T, ttl, s, Sign(T, v.signature.base));
    assert v.signature in s.issued;
    s := Accept(T, ttl, s, 0, v, 0);
    var end := (2 * T + 2) * SECOND - 1;
    s := Go(T, ttl, s, Net(P.Tick(end)));
    s := Accept(T, ttl, s, 1, v, D * SECOND);
    assert BothAccepted(D, s, 0, 0, 1, 0);
  }

  /** The bound, both ways: no run accepts an honest signature twice exactly when
      the replay window is at least 2T + 1 + D seconds. */
  lemma AtMostOnceIff(T: nat, D: nat, ttl: int)
    requires ttl > 0
    ensures (2 * T + 1 + D) * SECOND <= ttl <==>
            forall s, a, i, b, j | Reachable(T, ttl, s) && BothAccepted(D, s, a, i, b, j) :: a == b && i == j
  {
    if (2 * T + 1 + D) * SECOND <= ttl {
      forall s, a, i, b, j | Reachable(T, ttl, s) && BothAccepted(D, s, a, i, b, j)
        ensures a == b && i == j
      {
        var acts :| Run(T, ttl, acts) == s;
        HonestAcceptedOnce(T, D, ttl, acts, a, i, b, j);
      }
    } else {
      TwiceBelowBound(T, D, ttl);
    }
  }
}

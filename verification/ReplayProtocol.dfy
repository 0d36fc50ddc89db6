/** Concurrent requests against one replay store, as interleaved atomic steps.
    Each request reads the clock for freshness once per signature, looks every
    signature up, then records every signature; any other request may run
    between any two of those steps, and the clock never runs backwards. */
module ReplayProtocol {
  import opened Text
  import opened Chain
  import opened ReplayStore
  import opened Instant
  import opened Verifier
  import S = Signer

  type Pair = (string, SigBytes)
  type Id = nat

  /** The middleware leaves the future-skew option unset, so it is the default. */
  const MAX_SKEW := 300

  datatype Phase = Verifying | Checking | Committing | Accepted | Refused | Replayed

  /** freshAt, looks and commits are the instants of the steps that passed, and
      tripped is the instant of the one that found a replay. */
  datatype Thread = Thread(
    sigs: seq<Verified>, phase: Phase, freshAt: seq<int>, looks: seq<int>, commits: seq<int>, tripped: Option<int>)

  datatype State = State(now: int, seen: map<Pair, int>, threads: map<Id, Thread>)

  datatype Action = Tick(to: int) | Start(id: Id, sigs: seq<Verified>) | Fresh(id: Id) | Look(id: Id) | Commit(id: Id)

  const INIT := State(0, map[], map[])

  /** Some verifier reports these signatures of some request. */
  ghost predicate Reported(sigs: seq<Verified>) { exists env, r :: VerifyMultisig(env, r) == Ok(sigs) }

  lemma ReportedIsLinked(sigs: seq<Verified>)
    requires Reported(sigs)
    ensures sigs != [] && Linked(sigs)
  {
    hide VerifyMultisig, Linked;
    var env, r :| VerifyMultisig(env, r) == Ok(sigs);
    AcceptedIsLinked(env, r);
  }

  predicate FreshAt(v: Verified, now: int) {
    CheckWindow(SigParams(v.keyId, v.alg, v.created, v.expires, "", ""), Unix(now), MAX_SKEW).None?
  }

  /** One signature's created and expires check. */
  function AfterFresh(t: Thread, now: int): Thread
    requires |t.freshAt| < |t.sigs|
  {
    if !FreshAt(t.sigs[|t.freshAt|], now) then t.(phase := Refused)
    else
      var t' := t.(freshAt := t.freshAt + [now]);
      if |t'.freshAt| == |t.sigs| then t'.(phase := Checking) else t'
  }

  function AfterLook(t: Thread, seen: map<Pair, int>, now: int): Thread
    requires |t.looks| < |t.sigs|
  {
    if Live(seen, ReplayPair(t.sigs[|t.looks|]), now) then t.(phase := Replayed, tripped := Some(now))
    else if |t.looks| + 1 == |t.sigs| then t.(looks := t.looks + [now], phase := Committing)
    else t.(looks := t.looks + [now])
  }

  function AfterCommit(t: Thread, seen: map<Pair, int>, now: int): Thread
    requires |t.commits| < |t.sigs|
  {
    if Live(seen, ReplayPair(t.sigs[|t.commits|]), now) then t.(phase := Replayed, tripped := Some(now))
    else if |t.commits| + 1 == |t.sigs| then t.(commits := t.commits + [now], phase := Accepted)
    else t.(commits := t.commits + [now])
  }

  ghost predicate Enabled(s: State, a: Action) {
    match a
    case Tick(to) => to >= s.now
    case Start(id, sigs) => id !in s.threads && Reported(sigs)
    case Fresh(id) =>
      id in s.threads && s.threads[id].phase.Verifying? && |s.threads[id].freshAt| < |s.threads[id].sigs|
    case Look(id) =>
      id in s.threads && s.threads[id].phase.Checking? && |s.threads[id].looks| < |s.threads[id].sigs|
    case Commit(id) =>
      id in s.threads && s.threads[id].phase.Committing? && |s.threads[id].commits| < |s.threads[id].sigs|
  }

  function NewThread(sigs: seq<Verified>): Thread { Thread(sigs, Verifying, [], [], [], None) }

  /** A step that is not enabled changes nothing, so every list of actions is a run. */
  ghost function Step(ttl: int, s: State, a: Action): State {
    if !Enabled(s, a) then s
    else
      match a
      case Tick(to) => s.(now := to)
      case Start(id, sigs) => s.(threads := s.threads[id := NewThread(sigs)])
      case Fresh(id) => s.(threads := s.threads[id := AfterFresh(s.threads[id], s.now)])
      case Look(id) => s.(threads := s.threads[id := AfterLook(s.threads[id], s.seen, s.now)])
      case Commit(id) =>
        var t := s.threads[id];
        State(s.now, AfterAdd(s.seen, ReplayPair(t.sigs[|t.commits|]), s.now, ttl),
              s.threads[id := AfterCommit(t, s.seen, s.now)])
  }

  ghost function Run(ttl: int, acts: seq<Action>): State {
    if acts == [] then INIT else Step(ttl, Run(ttl, acts[..|acts| - 1]), acts[|acts| - 1])
  }

  /** The machine's requests are what the verifier reports: an accepted request
      can start, and every freshness step succeeds at the verifier's readings. */
  lemma VerifiedCanRun(env: Env, r: Request, at: nat -> int)
    requires VerifyMultisig(env, r).Ok? && env.maxSkew == MAX_SKEW
    requires forall i :: env.now(i) == Unix(at(i))
    ensures var vs := VerifyMultisig(env, r).value;
            Reported(vs) && forall i | 0 <= i < |vs| :: FreshAt(vs[i], at(i))
  {
    hide VerifyMultisig, VerifySingle, Parse, SigLabel, Linked;
    AcceptedIsLinked(env, r);
    var vs := VerifyMultisig(env, r).value;
    forall i | 0 <= i < |vs|
      ensures FreshAt(vs[i], at(i))
    {
      SingleIsFresh(env, r, Parse(r).value[i], env.now(i));
    }
  }

  lemma SingleIsFresh(env: Env, r: Request, p: Params, now: int)
    requires r.signature.Parsed? && VerifySingle(env, r, p, now).Ok?
    ensures var v := VerifySingle(env, r, p, now).value;
            CheckWindow(SigParams(v.keyId, v.alg, v.created, v.expires, "", ""), now, env.maxSkew).None?
  {
    hide CoversRequired, CoversEntitlement, CheckDigest, BaseOf;
  }

  /******* The invariant *******/

  /** Request `id` has recorded its i-th signature. */
  predicate Has(s: State, id: Id, i: nat) {
    id in s.threads && i < |s.threads[id].commits| && i < |s.threads[id].sigs|
  }

  function KeyAt(s: State, id: Id, i: nat): Pair
    requires Has(s, id, i)
  {
    ReplayPair(s.threads[id].sigs[i])
  }

  function TimeAt(s: State, id: Id, i: nat): int
    requires Has(s, id, i)
  {
    s.threads[id].commits[i]
  }

  predicate ThreadOk(t: Thread) {
    && Linked(t.sigs) && |t.commits| <= |t.sigs| && |t.freshAt| <= |t.sigs| && |t.looks| <= |t.sigs|
    && (t.phase.Committing? ==> |t.commits| < |t.sigs|)
    && (t.phase.Accepted? ==> |t.commits| == |t.sigs|)
    && (t.phase.Verifying? || t.phase.Checking? || t.phase.Refused? ==> t.commits == [])
    && (t.phase.Checking? || t.phase.Committing? || t.phase.Accepted? || t.commits != [] ==> |t.freshAt| == |t.sigs|)
    && (t.phase.Committing? || t.phase.Accepted? || t.commits != [] ==> |t.looks| == |t.sigs|)
    && (t.phase.Replayed? <==> t.tripped.Some?)
    && (t.phase.Replayed? ==> |t.commits| < |t.sigs|)
  }

  predicate WellFormed(s: State) {
    forall id | id in s.threads :: ThreadOk(s.threads[id])
  }

  predicate InOrder(ts: seq<int>, now: int) {
    && (forall i, j | 0 <= i <= j < |ts| :: ts[i] <= ts[j])
    && (forall i | 0 <= i < |ts| :: ts[i] <= now)
  }

  /** A request looks, then records, then perhaps trips, in clock order. */
  predicate Timely(t: Thread, now: int) {
    && InOrder(t.looks, now) && InOrder(t.commits, now)
    && (forall i, j | 0 <= i < |t.looks| && 0 <= j < |t.commits| :: t.looks[i] <= t.commits[j])
    && (t.tripped.Some? ==> InOrder(t.looks, t.tripped.value) && InOrder(t.commits, t.tripped.value) && t.tripped.value <= now)
  }

  predicate AllTimely(s: State) {
    forall id | id in s.threads :: Timely(s.threads[id], s.now)
  }

  /** A commit is still recorded until ttl after it. */
  ghost predicate Remembered(ttl: int, s: State) {
    forall id, i | Has(s, id, i) ::
      TimeAt(s, id, i) <= s.now &&
      (s.now < TimeAt(s, id, i) + ttl ==>
         KeyAt(s, id, i) in s.seen && s.seen[KeyAt(s, id, i)] >= TimeAt(s, id, i) + ttl)
  }

  /** Every entry was put there by some request's commit, ttl before it expires. */
  ghost predicate Owned(ttl: int, s: State) {
    forall k | k in s.seen :: exists id, i :: Has(s, id, i) && KeyAt(s, id, i) == k && s.seen[k] == TimeAt(s, id, i) + ttl
  }

  /** Two commits of one pair are at least ttl apart. */
  ghost predicate SpacedApart(ttl: int, s: State) {
    forall id1, i1, id2, i2 | Has(s, id1, i1) && Has(s, id2, i2) && KeyAt(s, id1, i1) == KeyAt(s, id2, i2) ::
      (id1 == id2 && i1 == i2) || TimeAt(s, id1, i1) + ttl <= TimeAt(s, id2, i2) || TimeAt(s, id2, i2) + ttl <= TimeAt(s, id1, i1)
  }

  predicate Looked(s: State, id: Id, i: nat) {
    id in s.threads && i < |s.threads[id].looks| && i < |s.threads[id].sigs|
  }

  /** A look that passed came ttl or more after every earlier commit of its pair. */
  ghost predicate LooksClear(ttl: int, s: State) {
    forall id, i: nat, q, j | Looked(s, id, i) && Has(s, q, j) && KeyAt(s, q, j) == ReplayPair(s.threads[id].sigs[i]) ::
      TimeAt(s, q, j) < s.threads[id].looks[i] ==> TimeAt(s, q, j) + ttl <= s.threads[id].looks[i]
  }

  predicate Burned(s: State, id: Id) {
    id in s.threads && s.threads[id].phase.Replayed? && s.threads[id].commits != []
  }

  /** Another request's record of the same position was live when id tripped. */
  ghost predicate Overtaken(ttl: int, s: State, id: Id) {
    && id in s.threads && s.threads[id].tripped.Some? && |s.threads[id].commits| < |s.threads[id].sigs|
    && var n, at := |s.threads[id].commits|, s.threads[id].tripped.value;
       exists q :: q != id && Has(s, q, n) && KeyAt(s, q, n) == ReplayPair(s.threads[id].sigs[n]) &&
                   TimeAt(s, q, n) <= at < TimeAt(s, q, n) + ttl
  }

  ghost predicate BurnedOvertaken(ttl: int, s: State) {
    forall id | Burned(s, id) :: Overtaken(ttl, s, id)
  }

  ghost predicate Records(ttl: int, s: State) { Remembered(ttl, s) && Owned(ttl, s) && SpacedApart(ttl, s) }

  ghost predicate Inv(ttl: int, s: State) {
    WellFormed(s) && AllTimely(s) && Records(ttl, s) && LooksClear(ttl, s) && BurnedOvertaken(ttl, s)
  }

  /** The recorded signatures of s and their instants are recorded in s' too. */
  ghost predicate Keeps(s: State, s': State) {
    forall q, i | Has(s, q, i) :: Has(s', q, i) && KeyAt(s', q, i) == KeyAt(s, q, i) && TimeAt(s', q, i) == TimeAt(s, q, i)
  }

  lemma OvertakenKept(ttl: int, s: State, s': State, id: Id)
    requires Overtaken(ttl, s, id) && Keeps(s, s') && id in s'.threads && s'.threads[id] == s.threads[id]
    ensures Overtaken(ttl, s', id)
  {
    var n, at := |s.threads[id].commits|, s.threads[id].tripped.value;
    var q :| q != id && Has(s, q, n) && KeyAt(s, q, n) == ReplayPair(s.threads[id].sigs[n]) &&
             TimeAt(s, q, n) <= at < TimeAt(s, q, n) + ttl;
    assert Has(s', q, n);
  }

  /******* Steps that record nothing *******/

  /** The step gives one request a new state without a new record. */
  ghost predicate Quiet(s: State, s': State, id: Id) {
    && s'.now == s.now && s'.seen == s.seen && s'.threads.Keys == s.threads.Keys + {id}
    && (forall q | q in s.threads && q != id :: s'.threads[q] == s.threads[q])
    && ThreadOk(s'.threads[id]) && Timely(s'.threads[id], s.now)
    && (if id in s.threads
        then s'.threads[id].sigs == s.threads[id].sigs && s'.threads[id].commits == s.threads[id].commits
        else s'.threads[id].commits == [])
  }

  lemma QuietKeeps(s: State, s': State, id: Id)
    requires Quiet(s, s', id)
    ensures Keeps(s, s') && Keeps(s', s)
  {
  }

  lemma RecordsKept(ttl: int, s: State, s': State)
    requires Records(ttl, s) && Keeps(s, s') && Keeps(s', s) && s'.seen == s.seen && s'.now >= s.now
    ensures Records(ttl, s')
  {
    assert forall q, i :: Has(s', q, i) <==> Has(s, q, i);
    forall k | k in s'.seen
      ensures exists id, i :: Has(s', id, i) && KeyAt(s', id, i) == k && s'.seen[k] == TimeAt(s', id, i) + ttl
    {
      var id, i :| Has(s, id, i) && KeyAt(s, id, i) == k && s.seen[k] == TimeAt(s, id, i) + ttl;
      assert Has(s', id, i);
    }
  }

  /** The looks of id in s' are those in s, or none, or one more that passed now. */
  ghost predicate LooksOn(s: State, s': State, id: Id) {
    && id in s'.threads
    && (s'.threads[id].looks == [] ||
        (id in s.threads && s'.threads[id].sigs == s.threads[id].sigs &&
         (s'.threads[id].looks == s.threads[id].looks ||
          (s'.threads[id].looks == s.threads[id].looks + [s.now] && |s.threads[id].looks| < |s.threads[id].sigs| &&
           !Live(s.seen, ReplayPair(s.threads[id].sigs[|s.threads[id].looks|]), s.now)))))
  }

  lemma PassedLook(ttl: int, s: State, k: Pair, q: Id, j: nat)
    requires Remembered(ttl, s) && !Live(s.seen, k, s.now) && Has(s, q, j) && KeyAt(s, q, j) == k
    ensures TimeAt(s, q, j) + ttl <= s.now
  {
  }

  lemma LooksKept(ttl: int, s: State, s': State, id: Id)
    requires Remembered(ttl, s) && LooksClear(ttl, s) && Quiet(s, s', id) && LooksOn(s, s', id)
    ensures LooksClear(ttl, s')
  {
    hide Remembered, Live, Timely, Linked;
    QuietKeeps(s, s', id);
    forall p, i: nat, q, j | Looked(s', p, i) && Has(s', q, j) && KeyAt(s', q, j) == ReplayPair(s'.threads[p].sigs[i])
      ensures TimeAt(s', q, j) < s'.threads[p].looks[i] ==> TimeAt(s', q, j) + ttl <= s'.threads[p].looks[i]
    {
      assert Has(s, q, j);
      if Looked(s, p, i) {
      } else {
        PassedLook(ttl, s, ReplayPair(s'.threads[p].sigs[i]), q, j);
      }
    }
  }

  lemma QuietKeepsInv(ttl: int, s: State, s': State, id: Id)
    requires Inv(ttl, s) && Quiet(s, s', id) && LooksOn(s, s', id)
    requires Burned(s', id) ==> Overtaken(ttl, s', id)
    ensures Inv(ttl, s')
  {
    QuietKeeps(s, s', id);
    RecordsKept(ttl, s, s');
    LooksKept(ttl, s, s', id);
    hide Linked, Timely, Records, LooksClear, LooksOn, Overtaken, ThreadOk, Keeps;
    forall q | Burned(s', q)
      ensures Overtaken(ttl, s', q)
    {
      if q != id {
        assert Burned(s, q);
        OvertakenKept(ttl, s, s', q);
      }
    }
  }

  lemma FreshThread(t: Thread, now: int)
    requires ThreadOk(t) && Timely(t, now) && t.phase.Verifying? && |t.freshAt| < |t.sigs|
    ensures ThreadOk(AfterFresh(t, now)) && Timely(AfterFresh(t, now), now)
  {
    hide Linked, FreshAt;
  }

  lemma LookThread(t: Thread, seen: map<Pair, int>, now: int)
    requires ThreadOk(t) && Timely(t, now) && t.phase.Checking? && |t.looks| < |t.sigs|
    ensures ThreadOk(AfterLook(t, seen, now)) && Timely(AfterLook(t, seen, now), now)
  {
    hide Linked, Live;
  }

  lemma TripThread(t: Thread, now: int)
    requires ThreadOk(t) && Timely(t, now) && t.phase.Committing?
    ensures ThreadOk(t.(phase := Replayed, tripped := Some(now))) && Timely(t.(phase := Replayed, tripped := Some(now)), now)
  {
    hide Linked;
  }

  lemma QuietAction(ttl: int, s: State, a: Action)
    requires WellFormed(s) && AllTimely(s) && Enabled(s, a) && !a.Tick? && (a.Commit? ==> !Fits(s, a.id))
    ensures Quiet(s, Step(ttl, s, a), a.id) && LooksOn(s, Step(ttl, s, a), a.id)
    ensures a.Fresh? || a.Look? || a.Start? ==> Step(ttl, s, a).threads[a.id].commits == []
  {
    hide Linked, Sweep, Reported, FreshAt, Live;
    if a.Start? {
      ReportedIsLinked(a.sigs);
    } else {
      var t := s.threads[a.id];
      assert ThreadOk(t) && Timely(t, s.now);
      assert !a.Commit? ==> t.commits == [];
      hide ThreadOk, Timely;
      match a
      case Fresh(_) => FreshThread(t, s.now);
      case Look(_) => LookThread(t, s.seen, s.now);
      case Commit(_) => TripThread(t, s.now);
    }
  }

  /** A request that trips after recording something trips over another request:
      the chain commits to its own positions. */
  lemma Trips(ttl: int, s: State, id: Id)
    requires Inv(ttl, s) && Enabled(s, Commit(id)) && !Fits(s, id)
    ensures Overtaken(ttl, Step(ttl, s, Commit(id)), id)
  {
    hide LooksClear, SpacedApart, BurnedOvertaken, Timely;
    var t := s.threads[id];
    var n := |t.commits|;
    var k := ReplayPair(t.sigs[n]);
    var q, j :| Has(s, q, j) && KeyAt(s, q, j) == k && s.seen[k] == TimeAt(s, q, j) + ttl;
    assert ThreadOk(t) && ThreadOk(s.threads[q]);
    SharedSignature(s.threads[q].sigs, j, t.sigs, n);
    hide Linked;
    var s' := Step(ttl, s, Commit(id));
    assert q != id && s'.threads[q] == s.threads[q] && Has(s', q, n);
  }

  /******* Steps that record *******/

  /** s' is s with one more recorded signature: the n-th of request id, at s.now. */
  ghost predicate OneMore(s: State, s': State, id: Id, n: nat) {
    && s'.now == s.now && Keeps(s, s')
    && (forall q, i :: Has(s', q, i) <==> Has(s, q, i) || (q == id && i == n))
    && Has(s', id, n) && !Has(s, id, n) && TimeAt(s', id, n) == s.now
  }

  predicate Fits(s: State, id: Id) {
    && id in s.threads && s.threads[id].phase.Committing? && |s.threads[id].commits| < |s.threads[id].sigs|
    && !Live(s.seen, ReplayPair(s.threads[id].sigs[|s.threads[id].commits|]), s.now)
  }

  /** Looks and instants of every request but the recording one are untouched. */
  ghost predicate SameLooks(s: State, s': State) {
    && s'.threads.Keys == s.threads.Keys
    && forall q | q in s.threads :: s'.threads[q].looks == s.threads[q].looks && s'.threads[q].sigs == s.threads[q].sigs
  }

  lemma CommitAdds(ttl: int, s: State, id: Id)
    requires WellFormed(s) && Fits(s, id)
    ensures var s' := Step(ttl, s, Commit(id));
            var n := |s.threads[id].commits|;
            && WellFormed(s') && OneMore(s, s', id, n) && SameLooks(s, s')
            && !Live(s.seen, KeyAt(s', id, n), s.now) && s'.seen == AfterAdd(s.seen, KeyAt(s', id, n), s.now, ttl)
    ensures var s' := Step(ttl, s, Commit(id));
            forall q | Burned(s', q) :: q in s.threads && s'.threads[q] == s.threads[q]
  {
    hide Linked, AfterAdd;
    var s' := Step(ttl, s, Commit(id));
    assert ThreadOk(s.threads[id]);
    assert forall q | q in s.threads && q != id :: s'.threads[q] == s.threads[q];
  }

  lemma CommitTimely(ttl: int, s: State, id: Id)
    requires WellFormed(s) && AllTimely(s) && Fits(s, id)
    ensures AllTimely(Step(ttl, s, Commit(id)))
  {
    hide Linked, AfterAdd, Live;
    assert ThreadOk(s.threads[id]) && Timely(s.threads[id], s.now);
  }

  lemma CommitSpaced(ttl: int, s: State, s': State, id: Id, n: nat)
    requires Remembered(ttl, s) && SpacedApart(ttl, s) && OneMore(s, s', id, n)
    requires !Live(s.seen, KeyAt(s', id, n), s.now)
    ensures SpacedApart(ttl, s')
  {
    assert forall q, i | Has(s, q, i) && KeyAt(s, q, i) == KeyAt(s', id, n) :: TimeAt(s, q, i) + ttl <= s.now;
  }

  lemma CommitRemembered(ttl: int, s: State, s': State, id: Id, n: nat)
    requires ttl > 0 && Remembered(ttl, s) && OneMore(s, s', id, n)
    requires !Live(s.seen, KeyAt(s', id, n), s.now) && s'.seen == AfterAdd(s.seen, KeyAt(s', id, n), s.now, ttl)
    ensures Remembered(ttl, s')
  {
  }

  lemma CommitOwned(ttl: int, s: State, s': State, id: Id, n: nat)
    requires Owned(ttl, s) && OneMore(s, s', id, n)
    requires !Live(s.seen, KeyAt(s', id, n), s.now) && s'.seen == AfterAdd(s.seen, KeyAt(s', id, n), s.now, ttl)
    ensures Owned(ttl, s')
  {
    forall e | e in s'.seen
      ensures exists q, i :: Has(s', q, i) && KeyAt(s', q, i) == e && s'.seen[e] == TimeAt(s', q, i) + ttl
    {
      if e == KeyAt(s', id, n) {
        assert Has(s', id, n);
      } else {
        var q, i :| Has(s, q, i) && KeyAt(s, q, i) == e && s.seen[e] == TimeAt(s, q, i) + ttl;
        assert Has(s', q, i) && KeyAt(s', q, i) == e;
      }
    }
  }

  lemma CommitLooks(ttl: int, s: State, s': State, id: Id, n: nat)
    requires LooksClear(ttl, s) && AllTimely(s) && OneMore(s, s', id, n) && SameLooks(s, s')
    ensures LooksClear(ttl, s')
  {
    forall p, i: nat, q, j | Looked(s', p, i) && Has(s', q, j) && KeyAt(s', q, j) == ReplayPair(s'.threads[p].sigs[i])
      ensures TimeAt(s', q, j) < s'.threads[p].looks[i] ==> TimeAt(s', q, j) + ttl <= s'.threads[p].looks[i]
    {
      assert Looked(s, p, i) && Timely(s.threads[p], s.now);
      if Has(s, q, j) {
        assert KeyAt(s', q, j) == KeyAt(s, q, j);
      }
    }
  }

  lemma CommitStep(ttl: int, s: State, id: Id)
    requires Inv(ttl, s) && ttl > 0 && Fits(s, id)
    ensures Inv(ttl, Step(ttl, s, Commit(id)))
  {
    hide Step, WellFormed, AllTimely, Remembered, Owned, SpacedApart, LooksClear, Overtaken, AfterAdd, Live, SameLooks;
    var s' := Step(ttl, s, Commit(id));
    var n := |s.threads[id].commits|;
    CommitAdds(ttl, s, id);
    CommitTimely(ttl, s, id);
    CommitSpaced(ttl, s, s', id, n);
    CommitRemembered(ttl, s, s', id, n);
    CommitOwned(ttl, s, s', id, n);
    CommitLooks(ttl, s, s', id, n);
    forall q | Burned(s', q)
      ensures Overtaken(ttl, s', q)
    {
      assert Burned(s, q);
      OvertakenKept(ttl, s, s', q);
    }
  }

  lemma TickKeepsInv(ttl: int, s: State, to: int)
    requires Inv(ttl, s) && to >= s.now
    ensures Inv(ttl, s.(now := to))
  {
    var s' := s.(now := to);
    assert Keeps(s, s') && Keeps(s', s);
    RecordsKept(ttl, s, s');
    hide Linked, Overtaken, Records;
    assert LooksClear(ttl, s') by {
      assert forall p, i :: Looked(s', p, i) <==> Looked(s, p, i);
    }
    forall q | Burned(s', q)
      ensures Overtaken(ttl, s', q)
    {
      assert Burned(s, q);
      OvertakenKept(ttl, s, s', q);
    }
  }

  lemma StepKeepsInv(ttl: int, s: State, a: Action)
    requires Inv(ttl, s) && ttl > 0
    ensures Inv(ttl, Step(ttl, s, a))
  {
    if a.Commit? && Fits(s, a.id) {
      CommitStep(ttl, s, a.id);
    } else if Enabled(s, a) {
      if a.Tick? {
        TickKeepsInv(ttl, s, a.to);
      } else {
        if a.Commit? {
          Trips(ttl, s, a.id);
        }
        hide Quiet, Records, LooksClear, LooksOn, Overtaken, WellFormed, AllTimely, BurnedOvertaken;
        QuietAction(ttl, s, a);
        QuietKeepsInv(ttl, s, Step(ttl, s, a), a.id);
      }
    }
  }

  lemma {:induction false} RunKeepsInv(ttl: int, acts: seq<Action>)
    requires ttl > 0
    ensures Inv(ttl, Run(ttl, acts))
  {
    if acts == [] {
    } else {
      RunKeepsInv(ttl, acts[..|acts| - 1]);
      StepKeepsInv(ttl, Run(ttl, acts[..|acts| - 1]), acts[|acts| - 1]);
    }
  }

  /******* What every run guarantees *******/

  /** Two accepted requests share a (key id, signature) pair only when they
      recorded it at least ttl apart; one request never holds a pair twice. */
  lemma AcceptedPairsSpacedApart(ttl: int, acts: seq<Action>, a: Id, i: nat, b: Id, j: nat)
    requires ttl > 0
    requires var s := Run(ttl, acts);
             && a in s.threads && s.threads[a].phase.Accepted? && i < |s.threads[a].sigs|
             && b in s.threads && s.threads[b].phase.Accepted? && j < |s.threads[b].sigs|
             && ReplayPair(s.threads[a].sigs[i]) == ReplayPair(s.threads[b].sigs[j])
    ensures var s := Run(ttl, acts);
            && i == j && |s.threads[a].commits| > i && |s.threads[b].commits| > j
            && (a == b || s.threads[a].commits[i] + ttl <= s.threads[b].commits[j]
                       || s.threads[b].commits[j] + ttl <= s.threads[a].commits[i])
  {
    hide Run, LooksClear, BurnedOvertaken, AllTimely, Remembered, Owned;
    var s := Run(ttl, acts);
    RunKeepsInv(ttl, acts);
    assert ThreadOk(s.threads[a]) && ThreadOk(s.threads[b]);
    SharedSignature(s.threads[a].sigs, i, s.threads[b].sigs, j);
    assert Has(s, a, i) && Has(s, b, j);
  }

  /** The pair that id tripped on, and its first pair, as another request
      recorded them. */
  lemma OvertakenOnFirst(ttl: int, s: State, id: Id) returns (q: Id)
    requires Inv(ttl, s) && Burned(s, id)
    ensures id in s.threads && s.threads[id].tripped.Some? && |s.threads[id].commits| < |s.threads[id].sigs|
    ensures var n := |s.threads[id].commits|;
            && q != id && Has(s, id, 0) && Has(s, q, 0) && KeyAt(s, q, 0) == KeyAt(s, id, 0)
            && Has(s, q, n) && KeyAt(s, q, n) == ReplayPair(s.threads[id].sigs[n])
            && TimeAt(s, q, n) <= s.threads[id].tripped.value < TimeAt(s, q, n) + ttl
  {
    hide Records, LooksClear, AllTimely;
    var t := s.threads[id];
    var n := |t.commits|;
    assert Overtaken(ttl, s, id);
    q :| q != id && Has(s, q, n) && KeyAt(s, q, n) == ReplayPair(t.sigs[n]) &&
         TimeAt(s, q, n) <= t.tripped.value < TimeAt(s, q, n) + ttl;
    assert ThreadOk(t) && ThreadOk(s.threads[q]);
    SharedSignature(s.threads[q].sigs, n, t.sigs, n);
  }

  /** Request `id` recorded a first signature that another request recorded ttl
      or more apart. */
  ghost predicate FirstExpired(ttl: int, s: State, id: Id) {
    exists other ::
      other != id && Has(s, id, 0) && Has(s, other, 0) && KeyAt(s, other, 0) == KeyAt(s, id, 0) &&
      (TimeAt(s, id, 0) + ttl <= TimeAt(s, other, 0) || TimeAt(s, other, 0) + ttl <= TimeAt(s, id, 0))
  }

  /** A request refused as replayed after recording something was overtaken on
      its first signature, ttl or more away from its own recording of it. */
  lemma BurnNeedsExpiry(ttl: int, acts: seq<Action>, id: Id)
    requires ttl > 0 && Burned(Run(ttl, acts), id)
    ensures FirstExpired(ttl, Run(ttl, acts), id)
  {
    hide Run, LooksClear, BurnedOvertaken, AllTimely, Remembered, Owned, WellFormed;
    RunKeepsInv(ttl, acts);
    var q := OvertakenOnFirst(ttl, Run(ttl, acts), id);
  }

  /** While no recorded signature has expired, a request refused as replayed
      has added nothing to the store. */
  lemma RejectedAddsNothing(ttl: int, acts: seq<Action>, id: Id)
    requires ttl > 0 && id in Run(ttl, acts).threads && Run(ttl, acts).threads[id].phase.Replayed?
    requires var s := Run(ttl, acts); forall q, i | Has(s, q, i) :: s.now < TimeAt(s, q, i) + ttl
    ensures Run(ttl, acts).threads[id].commits == []
  {
    hide Run, LooksClear, BurnedOvertaken, AllTimely, SpacedApart, Owned, WellFormed;
    var s := Run(ttl, acts);
    RunKeepsInv(ttl, acts);
    if s.threads[id].commits != [] {
      BurnNeedsExpiry(ttl, acts, id);
      assert false;
    }
  }

  /******* When nothing is burned *******/

  /** A request's latest step on the store. */
  function LastStep(t: Thread): int
    requires t.looks != []
  {
    if t.tripped.Some? then t.tripped.value
    else if t.commits != [] then t.commits[|t.commits| - 1]
    else t.looks[|t.looks| - 1]
  }

  /** No request has spent more than E from its first look to its latest step. */
  predicate Prompt(E: int, s: State) {
    forall id | id in s.threads && s.threads[id].looks != [] :: LastStep(s.threads[id]) <= s.threads[id].looks[0] + E
  }

  lemma CommitsByLastStep(t: Thread, now: int, n: nat)
    requires Timely(t, now) && n < |t.commits| && t.looks != []
    ensures t.looks[0] <= t.commits[0] <= t.commits[n] <= LastStep(t)
  {
  }

  predicate Spent(s: State, id: Id, d: int) {
    id in s.threads && s.threads[id].looks != [] && LastStep(s.threads[id]) >= s.threads[id].looks[0] + d
  }

  /** A request that burned something, or the one that overtook it, spent ttl or
      more on the store: by which of them recorded the first signature earlier. */
  lemma BurnTakesTtl(ttl: int, s: State, id: Id) returns (q: Id)
    requires ttl > 0 && Inv(ttl, s) && Burned(s, id)
    ensures Spent(s, id, ttl) || Spent(s, q, ttl)
  {
    hide BurnedOvertaken, Remembered, Owned;
    q := OvertakenOnFirst(ttl, s, id);
    var t, tq := s.threads[id], s.threads[q];
    var n := |t.commits|;
    assert ThreadOk(t) && ThreadOk(tq) && Timely(t, s.now) && Timely(tq, s.now);
    hide Linked;
    CommitsByLastStep(t, s.now, 0);
    CommitsByLastStep(tq, s.now, n);
    assert Looked(s, id, 0) && Looked(s, id, n);
    FirstSpaced(ttl, s, id, q);
    LookClearOf(ttl, s, id, 0, q);
    LookClearOf(ttl, s, id, n, q);
    assert t.looks[0] <= t.looks[n] <= t.tripped.value;
  }

  lemma PromptBurnsNothing(ttl: int, E: int, s: State, id: Id)
    requires ttl > 0 && Inv(ttl, s) && Prompt(E, s) && E < ttl
    ensures !Burned(s, id)
  {
    hide Inv, Burned;
    if Burned(s, id) {
      var q := BurnTakesTtl(ttl, s, id);
      assert false;
    }
  }

  lemma FirstSpaced(ttl: int, s: State, id: Id, q: Id)
    requires SpacedApart(ttl, s) && q != id && Has(s, id, 0) && Has(s, q, 0) && KeyAt(s, q, 0) == KeyAt(s, id, 0)
    ensures TimeAt(s, id, 0) + ttl <= TimeAt(s, q, 0) || TimeAt(s, q, 0) + ttl <= TimeAt(s, id, 0)
  {
  }

  lemma LookClearOf(ttl: int, s: State, id: Id, i: nat, q: Id)
    requires LooksClear(ttl, s) && Looked(s, id, i) && Has(s, q, i) && KeyAt(s, q, i) == ReplayPair(s.threads[id].sigs[i])
    ensures TimeAt(s, q, i) < s.threads[id].looks[i] ==> TimeAt(s, q, i) + ttl <= s.threads[id].looks[i]
  {
  }

  ghost predicate Reachable(ttl: int, s: State) { exists acts :: Run(ttl, acts) == s }

  lemma StartReachable(ttl: int)
    ensures Reachable(ttl, INIT)
  {
    assert Run(ttl, []) == INIT;
  }

  lemma Go(ttl: int, s: State, a: Action) returns (s': State)
    requires Reachable(ttl, s)
    ensures s' == Step(ttl, s, a) && Reachable(ttl, s')
  {
    var acts :| Run(ttl, acts) == s;
    assert (acts + [a])[..|acts|] == acts;
    s' := Step(ttl, s, a);
    assert Run(ttl, acts + [a]) == s';
  }

  /** A two-signature request reported by a verifier: an agent and one relay. */
  lemma TwoHops() returns (c: seq<Verified>)
    ensures Reported(c) && |c| == 2 && ReplayPair(c[0]) != ReplayPair(c[1])
    ensures forall i | 0 <= i < 2 :: FreshAt(c[i], 0)
  {
    hide VerifyMultisig;
    var hops := [S.Hop("a", "a", 1, 1), S.Hop("b", "b", 1, 1)];
    var env, r, vs := S.ChainReported(hops);
    c := vs;
    assert S.ReportsHop(c[0], hops[0]) && S.ReportsHop(c[1], hops[1]);
  }

  /** A new two-signature request verifies and passes its look-ups. */
  lemma Ready(ttl: int, s: State, id: Id, c: seq<Verified>) returns (s': State)
    requires Reachable(ttl, s) && id !in s.threads && |c| == 2 && Reported(c)
    requires forall i | 0 <= i < 2 :: FreshAt(c[i], s.now) && !Live(s.seen, ReplayPair(c[i]), s.now)
    ensures Reachable(ttl, s')
    ensures s' == s.(threads := s.threads[id := Thread(c, Committing, [s.now, s.now], [s.now, s.now], [], None)])
  {
    hide Run, Reported, FreshAt, Live, Reachable;
    s' := Go(ttl, s, Start(id, c));
    s' := Go(ttl, s', Fresh(id));
    s' := Go(ttl, s', Fresh(id));
    assert s'.threads[id] == Thread(c, Checking, [s.now, s.now], [], [], None);
    s' := Go(ttl, s', Look(id));
    s' := Go(ttl, s', Look(id));
  }

  /** One request records its first signature only after the other's record of
      it has expired, then trips over the other's second: it is refused as
      replayed with a recorded signature left behind, ttl after its first look. */
  lemma BurnAfterExpiry(ttl: int) returns (s: State)
    requires ttl > 0
    ensures Reachable(ttl, s) && Burned(s, 1) && Prompt(ttl, s)
  {
    hide Run, Reported, FreshAt, Reachable;
    var c := TwoHops();
    StartReachable(ttl);
    s := Ready(ttl, INIT, 0, c);
    s := Ready(ttl, s, 1, c);
    s := Go(ttl, s, Commit(0));
    s := Go(ttl, s, Tick(1));
    s := Go(ttl, s, Commit(0));
    assert s.seen[ReplayPair(c[1])] == 1 + ttl && s.threads[0].commits == [0, 1];
    s := Go(ttl, s, Tick(ttl));
    s := Go(ttl, s, Commit(1));
    assert s.seen[ReplayPair(c[1])] == 1 + ttl && s.threads[1].commits == [ttl];
    s := Go(ttl, s, Commit(1));
    assert s.threads[1].phase.Replayed? && s.threads.Keys == {0, 1};
  }

  /** A refused request burns nothing in any run whose requests each finish within
      E of their first look, exactly when E is below ttl. */
  lemma BurnsNothingIff(ttl: int, E: int)
    requires ttl > 0
    ensures E < ttl <==> forall s, id | Reachable(ttl, s) && Prompt(E, s) :: !Burned(s, id)
  {
    hide Run, Inv, Burned;
    if E < ttl {
      forall s, id | Reachable(ttl, s) && Prompt(E, s)
        ensures !Burned(s, id)
      {
        var acts :| Run(ttl, acts) == s;
        RunKeepsInv(ttl, acts);
        PromptBurnsNothing(ttl, E, s, id);
      }
    } else {
      var s := BurnAfterExpiry(ttl);
      assert Prompt(E, s);
    }
  }
}

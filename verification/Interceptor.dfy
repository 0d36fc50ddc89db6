/** The middleware's two-phase replay check: look every signature up, adding
    nothing, then record them all. */
module Interceptor {
  import opened Chain
  import opened Verifier
  import opened ReplayStore

  type Pair = (string, SigBytes)

  datatype Outcome = Accepted(sigs: seq<Verified>) | Refused(error: Error) | Replayed

  /** Recording the first n signatures, the i-th at its own reading. */
  function CommitAll(seen: map<Pair, int>, vs: seq<Verified>, at: nat -> int, ttl: int): map<Pair, int> {
    if vs == [] then seen
    else AfterAdd(CommitAll(seen, vs[..|vs| - 1], at, ttl), ReplayPair(vs[|vs| - 1]), at(|vs| - 1), ttl)
  }

  /** A clock that does not run backwards across the two passes over n signatures. */
  predicate Forward(look: nat -> int, commit: nat -> int, n: nat) {
    && (forall i, j | 0 <= i < n && 0 <= j < n :: look(i) <= commit(j))
    && (forall i, j | 0 <= i <= j < n :: commit(i) <= commit(j))
  }

  /** Recording a prefix cannot make a later signature of the same chain look seen. */
  lemma {:induction false} PrefixLeavesRestUnseen(seen: map<Pair, int>, vs: seq<Verified>, n: nat, k: nat,
                                                 look: nat -> int, at: nat -> int, ttl: int)
    requires Linked(vs) && n <= k < |vs| && Forward(look, at, |vs|)
    requires !Live(seen, ReplayPair(vs[k]), look(k))
    ensures !Live(CommitAll(seen, vs[..n], at, ttl), ReplayPair(vs[k]), at(k))
  {
    if n == 0 {
    } else {
      PrefixLeavesRestUnseen(seen, vs, n - 1, k, look, at, ttl);
      assert vs[..n][..n - 1] == vs[..n - 1];
      if ReplayPair(vs[n - 1]) == ReplayPair(vs[k]) {
        SharedSignature(vs, n - 1, vs, k);
      }
      AddObserved(CommitAll(seen, vs[..n - 1], at, ttl), ReplayPair(vs[n - 1]), at(n - 1), ttl, ReplayPair(vs[k]), at(k));
    }
  }

  /** None of the signatures was live when it was looked up. */
  predicate Unseen(seen: map<Pair, int>, vs: seq<Verified>, look: nat -> int) {
    forall i | 0 <= i < |vs| :: !Live(seen, ReplayPair(vs[i]), look(i))
  }

  /** What recording the first n signatures does to every later observation: each
      pair is seen until ttl after its own recording, and nothing else changes. */
  lemma {:induction false} CommitAllObserved(seen: map<Pair, int>, vs: seq<Verified>, n: nat,
                                            look: nat -> int, at: nat -> int, ttl: int, q: Pair, t: int)
    requires Linked(vs) && n <= |vs| && Forward(look, at, |vs|) && Unseen(seen, vs, look)
    requires forall i | 0 <= i < n :: at(i) <= t
    ensures Live(CommitAll(seen, vs[..n], at, ttl), q, t) <==>
            Live(seen, q, t) || exists i | 0 <= i < n :: q == ReplayPair(vs[i]) && t < at(i) + ttl
  {
    if n == 0 {
    } else {
      CommitAllObserved(seen, vs, n - 1, look, at, ttl, q, t);
      assert vs[..n][..n - 1] == vs[..n - 1];
      PrefixLeavesRestUnseen(seen, vs, n - 1, n - 1, look, at, ttl);
      AddObserved(CommitAll(seen, vs[..n - 1], at, ttl), ReplayPair(vs[n - 1]), at(n - 1), ttl, q, t);
      if q == ReplayPair(vs[n - 1]) {
        OnlyItself(seen, vs, n - 1, look, at, ttl, t);
      }
    }
  }

  /** Before its own recording a pair is live by neither the store nor a prefix. */
  lemma OnlyItself(seen: map<Pair, int>, vs: seq<Verified>, k: nat, look: nat -> int, at: nat -> int, ttl: int, t: int)
    requires Linked(vs) && k < |vs| && Forward(look, at, |vs|) && Unseen(seen, vs, look) && at(k) <= t
    ensures !Live(seen, ReplayPair(vs[k]), t)
    ensures forall i | 0 <= i < k :: ReplayPair(vs[i]) != ReplayPair(vs[k])
  {
    assert look(k) <= at(k);
    forall i | 0 <= i < k
      ensures ReplayPair(vs[i]) != ReplayPair(vs[k])
    {
      if ReplayPair(vs[i]) == ReplayPair(vs[k]) {
        SharedSignature(vs, i, vs, k);
      }
    }
  }

  /** With no other request in between, a request is accepted exactly when it
      verifies and none of its signatures is recorded. Then, at every instant from
      the last recording on, a pair is seen exactly when it was already, or is one
      of the request's within ttl of its own recording; a refused request leaves
      the store as it was. */
  method VerifyAndCommit(env: Env, r: Request, store: MemoryReplayStore<Pair>,
                         look: nat -> int, commit: nat -> int, ttl: int) returns (out: Outcome)
    requires r.input.Parsed? ==> Forward(look, commit, |r.input.value|)
    modifies store
    ensures out.Refused? <==> VerifyMultisig(env, r).Err?
    ensures out.Refused? ==> out.error == VerifyMultisig(env, r).error
    ensures !out.Refused? ==>
              (out.Replayed? <==>
                 exists i | 0 <= i < |VerifyMultisig(env, r).value| ::
                   Live(old(store.seen), ReplayPair(VerifyMultisig(env, r).value[i]), look(i)))
    ensures out.Accepted? ==> out.sigs == VerifyMultisig(env, r).value
    ensures out.Accepted? ==>
              forall q, t | (forall i | 0 <= i < |out.sigs| :: commit(i) <= t) ::
                Live(store.seen, q, t) <==>
                Live(old(store.seen), q, t) || exists i | 0 <= i < |out.sigs| :: q == ReplayPair(out.sigs[i]) && t < commit(i) + ttl
    ensures store.seen == if out.Accepted? then CommitAll(old(store.seen), out.sigs, commit, ttl) else old(store.seen)
  {
    hide VerifyMultisig;
    var verified := VerifyMultisigRequest(env, r);
    if verified.Err? {
      return Refused(verified.error);
    }
    var vs := verified.value;
    AcceptedIsLinked(env, r);
    for i := 0 to |vs|
      invariant forall k | 0 <= k < i :: !Live(store.seen, ReplayPair(vs[k]), look(k))
      invariant store.seen == old(store.seen)
    {
      var dup := store.Seen(ReplayPair(vs[i]), look(i));
      if dup {
        return Replayed;
      }
    }
    for i := 0 to |vs|
      invariant store.seen == CommitAll(old(store.seen), vs[..i], commit, ttl)
    {
      PrefixLeavesRestUnseen(old(store.seen), vs, i, i, look, commit, ttl);
      var dup := store.SeenOrAdd(ReplayPair(vs[i]), commit(i), ttl);
      // verifyMultisig refuses here too; only a concurrent request can make that happen.
      assert !dup;
      assert vs[..i + 1][..i] == vs[..i];
    }
    assert vs[..|vs|] == vs;
    hide Live, CommitAll;
    forall q, t | forall i | 0 <= i < |vs| :: commit(i) <= t
      ensures Live(store.seen, q, t) <==>
              Live(old(store.seen), q, t) || exists i | 0 <= i < |vs| :: q == ReplayPair(vs[i]) && t < commit(i) + ttl
    {
      CommitAllObserved(old(store.seen), vs, |vs|, look, commit, ttl, q, t);
    }
    return Accepted(vs);
  }

  /** Two verifiers that accept one request report the same pairs. */
  lemma SamePairs(env1: Env, env2: Env, r: Request)
    requires VerifyMultisig(env1, r).Ok? && VerifyMultisig(env2, r).Ok?
    ensures var v1, v2 := VerifyMultisig(env1, r).value, VerifyMultisig(env2, r).value;
            |v1| == |v2| >= 1 && forall i | 0 <= i < |v1| :: ReplayPair(v1[i]) == ReplayPair(v2[i])
  {
    hide VerifyMultisig, VerifySingle, SigLabel, Gate;
    AcceptedIsLinked(env1, r);
    AcceptedIsLinked(env2, r);
    var ps := Parse(r).value;
    forall i | 0 <= i < |ps|
      ensures ReplayPair(VerifyMultisig(env1, r).value[i]) == ReplayPair(VerifyMultisig(env2, r).value[i])
    {
      SingleFacts(env1, r, ps[i], env1.now(i));
      SingleFacts(env2, r, ps[i], env2.now(i));
    }
  }

  /** The same request again, judged at env2 and looked up after its last recording
      and within ttl of its first: it is replayed. */
  method SecondIsReplayed(env1: Env, env2: Env, r: Request, store: MemoryReplayStore<Pair>, ttl: int,
                          look1: nat -> int, commit1: nat -> int, look2: nat -> int, commit2: nat -> int)
    returns (first: Outcome, second: Outcome)
    requires r.input.Parsed? ==> Forward(look1, commit1, |r.input.value|) && Forward(look2, commit2, |r.input.value|)
    requires r.input.Parsed? ==> forall i | 0 <= i < |r.input.value| :: commit1(i) <= look2(0)
    requires look2(0) < commit1(0) + ttl
    modifies store
    ensures first.Accepted? && VerifyMultisig(env2, r).Ok? ==> second.Replayed?
    ensures first.Accepted? <==>
            VerifyMultisig(env1, r).Ok? &&
            forall i | 0 <= i < |VerifyMultisig(env1, r).value| ::
              !Live(old(store.seen), ReplayPair(VerifyMultisig(env1, r).value[i]), look1(i))
  {
    hide VerifyMultisig, CommitAll, Live;
    first := VerifyAndCommit(env1, r, store, look1, commit1, ttl);
    ghost var seen := store.seen;
    second := VerifyAndCommit(env2, r, store, look2, commit2, ttl);
    if first.Accepted? && VerifyMultisig(env2, r).Ok? {
      SamePairs(env1, env2, r);
      AcceptedIsLinked(env1, r);
      assert Live(seen, ReplayPair(first.sigs[0]), look2(0));
    }
  }
}

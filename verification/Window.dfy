/** The outbound signature window with a bounded drift: every call takes a
    cutoff one past the last, never more than one further ttl past its own. The
    last cutoff is an atomic cell updated by compare-and-swap. Times are unix
    seconds; T is the ttl in whole seconds. */
module Window {
  import opened Instant

  /** The cutoff a call stamped at unix second `now` takes after `prev`. */
  function Next(T: nat, prev: int, now: int): int {
    var floor := now + T;
    var next := if prev >= floor then prev + 1 else floor;
    if next > floor + T then floor + T else next
  }

  /** A swap moves the cell backwards exactly when the value it replaces is past
      this caller's own ceiling, and repeats it exactly when it is at the ceiling. */
  lemma SwapDirection(T: nat, prev: int, now: int)
    ensures Next(T, prev, now) < prev <==> prev > now + 2 * T
    ensures Next(T, prev, now) == prev <==> prev == now + 2 * T
    ensures now + T <= Next(T, prev, now) <= now + 2 * T
  {
  }

  class MonotonicWindow {
    const T: nat
    var lastExpires: int

    constructor (ttl: nat)
      ensures T == ttl / SECOND && lastExpires == 0
    {
      T := ttl / SECOND;
      lastExpires := 0;
    }

    /** One call. others holds what competing callers store between this call's
        load and its compare-and-swap, one value per lost attempt. The cutoff
        succeeds the value actually replaced, at this call's own clock reading. */
    method Stamp(now: int, others: seq<int>) returns (created: int, expires: int, replaced: int)
      modifies this
      ensures created == Unix(now)
      ensures expires == Next(T, replaced, created) == lastExpires
      ensures replaced == old(lastExpires) || replaced in others
      ensures T <= expires - created <= 2 * T
    {
      created := Unix(now);
      var floor := created + T;
      var ceiling := floor + T;
      var i := 0;
      while true
        invariant 0 <= i <= |others|
        invariant lastExpires == old(lastExpires) || lastExpires in others
        decreases |others| - i
      {
        var prev := lastExpires;
        var next := floor;
        if prev >= next {
          next := prev + 1;
        }
        if next > ceiling {
          next := ceiling;
        }
        if i < |others| {
          lastExpires := others[i];
          i := i + 1;
          if lastExpires != prev {
            continue;
          }
        }
        lastExpires := next;
        return created, next, prev;
      }
    }
  }

  /******* Concurrent callers *******/

  datatype Caller = Reading(now: int) | Loaded(now: int, prev: int) | Done(created: int, expires: int)

  /** One successful swap: by a caller stamped at `created`, replacing `prev`. */
  datatype Swap = Swap(created: int, prev: int, expires: int)

  datatype State = State(last: int, callers: map<nat, Caller>, swaps: seq<Swap>)

  datatype Action = Read(id: nat, now: int) | Load(id: nat) | TrySwap(id: nat)

  const INIT := State(0, map[], [])

  /** A caller reads the clock once, then loads and swaps until a swap holds. */
  function Step(T: nat, s: State, a: Action): State {
    match a
    case Read(id, now) =>
      if id in s.callers then s else s.(callers := s.callers[id := Reading(now)])
    case Load(id) =>
      if id in s.callers && s.callers[id].Reading?
      then s.(callers := s.callers[id := Loaded(s.callers[id].now, s.last)])
      else s
    case TrySwap(id) =>
      if id !in s.callers || !s.callers[id].Loaded? then s
      else
        var c := s.callers[id];
        if c.prev != s.last then s.(callers := s.callers[id := Reading(c.now)])
        else
          var next := Next(T, c.prev, Unix(c.now));
          State(next, s.callers[id := Done(Unix(c.now), next)], s.swaps + [Swap(Unix(c.now), c.prev, next)])
  }

  function Run(T: nat, acts: seq<Action>): State {
    if acts == [] then INIT else Step(T, Run(T, acts[..|acts| - 1]), acts[|acts| - 1])
  }

  predicate Follows(T: nat, swaps: seq<Swap>, i: nat)
    requires i < |swaps|
  {
    && swaps[i].prev == (if i == 0 then 0 else swaps[i - 1].expires)
    && swaps[i].expires == Next(T, swaps[i].prev, swaps[i].created)
  }

  /** The swaps form one history of the cell, whatever the interleaving. */
  predicate History(T: nat, s: State) {
    && s.last == (if s.swaps == [] then 0 else s.swaps[|s.swaps| - 1].expires)
    && (forall i | 0 <= i < |s.swaps| :: Follows(T, s.swaps, i))
    && (forall id | id in s.callers && s.callers[id].Done? ::
          exists i | 0 <= i < |s.swaps| ::
            s.swaps[i].created == s.callers[id].created && s.swaps[i].expires == s.callers[id].expires)
  }

  lemma StepKeepsHistory(T: nat, s: State, a: Action)
    requires History(T, s)
    ensures History(T, Step(T, s, a))
  {
    hide Next;
    var s' := Step(T, s, a);
    forall i | 0 <= i < |s'.swaps|
      ensures Follows(T, s'.swaps, i)
    {
      assert i < |s.swaps| ==> Follows(T, s.swaps, i);
    }
    forall id | id in s'.callers && s'.callers[id].Done?
      ensures exists i | 0 <= i < |s'.swaps| ::
                s'.swaps[i].created == s'.callers[id].created && s'.swaps[i].expires == s'.callers[id].expires
    {
      if id in s.callers && s.callers[id] == s'.callers[id] {
        var i :| 0 <= i < |s.swaps| && s.swaps[i].created == s.callers[id].created && s.swaps[i].expires == s.callers[id].expires;
        assert s'.swaps[i] == s.swaps[i];
      } else {
        assert s'.swaps[|s.swaps|].created == s'.callers[id].created;
      }
    }
  }

  lemma {:induction false} RunHistory(T: nat, acts: seq<Action>)
    ensures History(T, Run(T, acts))
  {
    hide Next, History;
    if acts == [] {
      assert History(T, INIT) by { EmptyHistory(T); }
    } else {
      RunHistory(T, acts[..|acts| - 1]);
      StepKeepsHistory(T, Run(T, acts[..|acts| - 1]), acts[|acts| - 1]);
    }
  }

  lemma EmptyHistory(T: nat)
    ensures History(T, INIT)
  {
  }

  /** In every interleaving each stamped lifetime is between ttl and twice ttl. */
  lemma {:induction false} LifetimeBounded(T: nat, acts: seq<Action>, id: nat)
    requires id in Run(T, acts).callers && Run(T, acts).callers[id].Done?
    ensures var c := Run(T, acts).callers[id]; T <= c.expires - c.created <= 2 * T
  {
    RunHistory(T, acts);
    hide Run;
    var s := Run(T, acts);
    var i :| 0 <= i < |s.swaps| && s.swaps[i].created == s.callers[id].created && s.swaps[i].expires == s.callers[id].expires;
    assert Follows(T, s.swaps, i);
    SwapDirection(T, s.swaps[i].prev, s.swaps[i].created);
  }

  /******* Swaps in clock order: a leaky bucket *******/

  predicate ClockOrder(T: nat, swaps: seq<Swap>) {
    && (swaps != [] ==> swaps[0].created + T > 0)
    && forall i, j | 0 <= i <= j < |swaps| :: swaps[i].created <= swaps[j].created
  }

  function Max(a: int, b: int): int { if a < b then b else a }
  function Min(a: int, b: int): int { if a < b then a else b }

  /** A leaky bucket holding at most T+1 drops that loses one a second and takes
      one per call: the fill just after the last call. */
  function Fill(T: nat, calls: seq<Swap>): nat {
    if calls == [] then 0
    else if |calls| == 1 then 1
    else
      var n := |calls|;
      var drained := Max(Fill(T, calls[..n - 1]) - (calls[n - 1].created - calls[n - 2].created), 0);
      Min(T + 1, drained + 1)
  }

  /** The i-th cutoff is the bucket's level above the plain clock window. */
  lemma {:induction false} LeakyBucket(T: nat, acts: seq<Action>, i: nat)
    requires var swaps := Run(T, acts).swaps; ClockOrder(T, swaps) && i < |swaps|
    ensures var swaps := Run(T, acts).swaps;
            1 <= Fill(T, swaps[..i + 1]) <= T + 1 &&
            swaps[i].expires == swaps[i].created + T + Fill(T, swaps[..i + 1]) - 1
  {
    hide Run;
    RunHistory(T, acts);
    var swaps := Run(T, acts).swaps;
    assert Follows(T, swaps, i);
    if i == 0 {
    } else {
      LeakyBucket(T, acts, i - 1);
      assert swaps[..i + 1][..i] == swaps[..i];
    }
  }

  /** In clock order cutoffs never decrease, and two are equal exactly when both
      calls fall in one second that the earlier one had already saturated. */
  lemma {:induction false} CutoffsInOrder(T: nat, acts: seq<Action>, i: nat, j: nat)
    requires var swaps := Run(T, acts).swaps; ClockOrder(T, swaps) && i < j < |swaps|
    ensures var swaps := Run(T, acts).swaps;
            && swaps[i].expires <= swaps[j].expires
            && (swaps[i].expires == swaps[j].expires <==>
                  swaps[i].created == swaps[j].created && swaps[i].expires == swaps[i].created + 2 * T)
    decreases j
  {
    hide Run;
    RunHistory(T, acts);
    var swaps := Run(T, acts).swaps;
    if i + 1 < j {
      CutoffsInOrder(T, acts, i, j - 1);
    }
    assert Follows(T, swaps, i) && Follows(T, swaps, j - 1) && Follows(T, swaps, j);
    assert swaps[i].created <= swaps[j - 1].created <= swaps[j].created;
  }

  /** A burst in one second after an idle spell: the k-th cutoff is k past the
      plain window until the cap, so exactly the first T+1 are distinct. */
  lemma {:induction false} BurstAfterIdle(T: nat, acts: seq<Action>, m: nat, k: nat)
    requires var swaps := Run(T, acts).swaps;
             m + k < |swaps| && swaps[m].prev < swaps[m].created + T &&
             forall i | m <= i <= m + k :: swaps[i].created == swaps[m].created
    ensures var swaps := Run(T, acts).swaps;
            swaps[m + k].expires == swaps[m].created + T + Min(k, T)
    decreases k
  {
    hide Run;
    RunHistory(T, acts);
    var swaps := Run(T, acts).swaps;
    assert Follows(T, swaps, m + k);
    if k == 0 {
    } else {
      BurstAfterIdle(T, acts, m, k - 1);
    }
  }

  ghost predicate Reachable(T: nat, s: State) { exists acts :: Run(T, acts) == s }

  lemma Go(T: nat, s: State, a: Action) returns (s': State)
    requires Reachable(T, s)
    ensures s' == Step(T, s, a) && Reachable(T, s')
  {
    var acts :| Run(T, acts) == s;
    assert (acts + [a])[..|acts|] == acts;
    s' := Step(T, s, a);
    assert Run(T, acts + [a]) == s';
  }

  lemma StartReachable(T: nat)
    ensures Reachable(T, INIT)
  {
    assert Run(T, []) == INIT;
  }

  lemma WholeSecond(n: int)
    ensures Unix(n * SECOND) == n
  {
  }

  /** Out of clock order the cell does go backwards: a caller that stalls
      between its clock reading and its swap overwrites a later cutoff. */
  lemma StalledCallerGoesBack(T: nat)
    ensures exists s :: Reachable(T, s) && |s.swaps| == 2 && s.swaps[1].expires < s.swaps[0].expires
  {
    hide Run, Reachable, Unix;
    var late := (T + 1) * SECOND;
    StartReachable(T);
    WholeSecond(0);
    WholeSecond(T + 1);
    var s := Go(T, INIT, Read(0, 0));
    s := Go(T, s, Read(1, late));
    s := Go(T, s, Load(1));
    s := Go(T, s, TrySwap(1));
    s := Go(T, s, Load(0));
    s := Go(T, s, TrySwap(0));
    assert s.swaps == [Swap(T + 1, 0, 2 * T + 1), Swap(0, 2 * T + 1, 2 * T)];
  }
}

/** The per-agent spending gate: a read-only check, then a separate record, over
    counters keyed by agent and month. Money is 1e8 fixed point in a 64-bit
    integer. */
module Budget {
  import opened Text

  /** The counter a reading of the clock selects. */
  function Key(agent: string, period: string): string { "budget:" + agent + ":" + period }

  /** Periods are seven characters, so distinct agents and months never share a counter. */
  lemma KeyInjective(a1: string, p1: string, a2: string, p2: string)
    requires |p1| == |p2| && Key(a1, p1) == Key(a2, p2)
    ensures a1 == a2 && p1 == p2
  {
    var k1, k2 := Key(a1, p1), Key(a2, p2);
    assert |k1| == 8 + |a1| + |p1| && |k2| == 8 + |a2| + |p2|;
    assert k1[7..7 + |a1|] == a1 && k2[7..7 + |a2|] == a2;
    assert k1[8 + |a1|..] == p1 && k2[8 + |a2|..] == p2;
  }

  function Count(counts: map<string, int>, k: string): int { if k in counts then counts[k] else 0 }

  datatype Decision = Decision(allowed: bool, remaining: int, limit: int, consumed: int)

  /** The gate's verdict on one winner, given the counter it read. */
  predicate Admits(agent: string, limit: int, consumed: int, cost: int) {
    agent == "" || limit <= 0 || (Wrap64(limit - consumed) >= 0 && Wrap64(consumed + cost) <= limit)
  }

  function Recorded(counts: map<string, int>, k: string, cost: int): map<string, int> {
    if cost <= 0 then counts else counts[k := Wrap64(Count(counts, k) + cost)]
  }

  class MemoryService {
    var counts: map<string, int>

    constructor ()
      ensures counts == map[]
    {
      counts := map[];
    }

    method Check(agent: string, period: string, limit: int) returns (d: Decision)
      ensures d.consumed == Count(counts, Key(agent, period)) && d.limit == limit
      ensures d.remaining == Wrap64(limit - d.consumed) && d.allowed == (d.remaining >= 0)
    {
      var k := Key(agent, period);
      var consumed := if k in counts then counts[k] else 0;
      var remaining := Wrap64(limit - consumed);
      d := Decision(remaining >= 0, remaining, limit, consumed);
    }

    method Record(agent: string, period: string, cost: int)
      modifies this
      ensures counts == Recorded(old(counts), Key(agent, period), cost)
    {
      if cost <= 0 {
        return;
      }
      var k := Key(agent, period);
      counts := counts[k := Wrap64((if k in counts then counts[k] else 0) + cost)];
    }
  }

  /** The pre-flight check and, when it passes, the record, each at its own month. */
  method Gate(svc: MemoryService, agent: string, limit: int, cost: int, checkedIn: string, recordedIn: string)
    returns (allowed: bool)
    modifies svc
    ensures allowed == Admits(agent, limit, old(Count(svc.counts, Key(agent, checkedIn))), cost)
    ensures svc.counts ==
            if allowed then Recorded(old(svc.counts), Key(agent, recordedIn), cost) else old(svc.counts)
  {
    if agent != "" && limit > 0 {
      var d := svc.Check(agent, checkedIn, limit);
      if !d.allowed {
        return false;
      }
      if Wrap64(d.consumed + cost) > d.limit {
        return false;
      }
    }
    svc.Record(agent, recordedIn, cost);
    return true;
  }

  /******* Concurrent requests *******/

  /** A request that has passed the check and not yet recorded. */
  datatype Pending = Pending(agent: string, cost: int)

  datatype State = State(period: string, counts: map<string, int>, pending: seq<Pending>)

  datatype Action = Check(agent: string, limit: int, cost: int) | Record(i: nat) | NextPeriod(period: string)

  const INIT := State("0000-00", map[], [])

  function CountOf(ps: seq<Pending>, agent: string): nat {
    if ps == [] then 0
    else CountOf(ps[1..], agent) + if ps[0].agent == agent then 1 else 0
  }

  function CostOf(ps: seq<Pending>, agent: string): int {
    if ps == [] then 0
    else CostOf(ps[1..], agent) + if ps[0].agent == agent then ps[0].cost else 0
  }

  /** At most k of an agent's requests stand between check and record, and the
      months only move on: a new one has no counters yet. */
  ghost predicate Enabled(k: nat, s: State, a: Action) {
    match a
    case Check(agent, limit, cost) =>
      && CountOf(s.pending, agent) < k
      && Admits(agent, limit, Count(s.counts, Key(agent, s.period)), cost)
    case Record(i) => i < |s.pending|
    case NextPeriod(p) => |p| == |s.period| && forall agent :: Key(agent, p) !in s.counts
  }

  function Without<T>(s: seq<T>, i: nat): seq<T>
    requires i < |s|
  {
    s[..i] + s[i + 1..]
  }

  ghost function Step(k: nat, s: State, a: Action): State {
    if !Enabled(k, s, a) then s
    else
      match a
      case Check(agent, _, cost) => s.(pending := s.pending + [Pending(agent, cost)])
      case Record(i) =>
        var p := s.pending[i];
        s.(counts := Recorded(s.counts, Key(p.agent, s.period), p.cost), pending := Without(s.pending, i))
      case NextPeriod(p) => s.(period := p)
  }

  ghost function Run(k: nat, acts: seq<Action>): State {
    if acts == [] then INIT else Step(k, Run(k, acts[..|acts| - 1]), acts[|acts| - 1])
  }

  /******* The cap under concurrency *******/

  /** Every request names an agent, a limit in 1..L and a cost in 0..C. */
  predicate Within(L: int, C: int, acts: seq<Action>) {
    forall i | 0 <= i < |acts| && acts[i].Check? ::
      acts[i].agent != "" && 0 < acts[i].limit <= L && 0 <= acts[i].cost <= C
  }

  predicate PendingOk(L: int, C: int, ps: seq<Pending>) {
    forall i | 0 <= i < |ps| :: 0 <= ps[i].cost <= C && ps[i].cost <= L
  }

  lemma {:induction false} AppendPending(ps: seq<Pending>, p: Pending, agent: string)
    ensures CountOf(ps + [p], agent) == CountOf(ps, agent) + if p.agent == agent then 1 else 0
    ensures CostOf(ps + [p], agent) == CostOf(ps, agent) + if p.agent == agent then p.cost else 0
  {
    if ps == [] {
      assert ps + [p] == [p];
    } else {
      assert (ps + [p])[1..] == ps[1..] + [p];
      AppendPending(ps[1..], p, agent);
    }
  }

  lemma {:induction false} RemovePending(ps: seq<Pending>, i: nat, agent: string)
    requires i < |ps|
    ensures CountOf(Without(ps, i), agent) == CountOf(ps, agent) - if ps[i].agent == agent then 1 else 0
    ensures CostOf(Without(ps, i), agent) == CostOf(ps, agent) - if ps[i].agent == agent then ps[i].cost else 0
  {
    if i == 0 {
      assert Without(ps, 0) == ps[1..];
    } else {
      assert Without(ps, i)[1..] == Without(ps[1..], i - 1);
      RemovePending(ps[1..], i - 1, agent);
    }
  }

  lemma {:induction false} CostBounded(ps: seq<Pending>, agent: string, M: int)
    requires forall i | 0 <= i < |ps| :: 0 <= ps[i].cost <= M
    ensures 0 <= CostOf(ps, agent) <= CountOf(ps, agent) * M
  {
    if ps == [] {
    } else {
      CostBounded(ps[1..], agent, M);
    }
  }

  lemma MulMonotone(m: int, n: int, M: int)
    requires m <= n && 0 <= M
    ensures m * M <= n * M
  {
  }

  /** No counter, and no counter with its agent's pending charges, passes B. */
  ghost predicate Capped(k: nat, L: int, C: int, B: int, s: State) {
    && |s.period| == 7
    && PendingOk(L, C, s.pending)
    && (forall key | key in s.counts :: 0 <= s.counts[key] <= B)
    && (forall agent ::
          CountOf(s.pending, agent) <= k &&
          Count(s.counts, Key(agent, s.period)) + CostOf(s.pending, agent) <= B)
  }

  /** The most one admitted charge can be, and the most k in flight can reach. */
  function Largest(L: int, C: int): int { if C < L then C else L }

  function Reach(k: nat, L: int, C: int): int { L + (k - 1) * Largest(L, C) }

  lemma CheckCapped(k: nat, L: int, C: int, s: State, agent: string, limit: int, cost: int)
    requires k >= 1 && 0 < L && 0 <= C && L + C < TWO63 && Reach(k, L, C) < TWO63 && Capped(k, L, C, Reach(k, L, C), s)
    requires Enabled(k, s, Check(agent, limit, cost)) && agent != "" && 0 < limit <= L && 0 <= cost <= C
    ensures Capped(k, L, C, Reach(k, L, C), s.(pending := s.pending + [Pending(agent, cost)]))
  {
    var p, M := Pending(agent, cost), Largest(L, C);
    var now := Count(s.counts, Key(agent, s.period));
    CostBounded(s.pending, agent, M);
    MulMonotone(CountOf(s.pending, agent), k - 1, M);
    assert 0 <= now <= Reach(k, L, C);
    assert now <= limit && now + cost <= limit;
    forall q
      ensures CountOf(s.pending + [p], q) <= k
      ensures Count(s.counts, Key(q, s.period)) + CostOf(s.pending + [p], q) <= Reach(k, L, C)
    {
      AppendPending(s.pending, p, q);
    }
  }

  lemma RecordCapped(k: nat, L: int, C: int, B: int, s: State, i: nat)
    requires B < TWO63 && 0 <= C && Capped(k, L, C, B, s) && i < |s.pending|
    ensures Capped(k, L, C, B, Step(k, s, Record(i)))
  {
    var p := s.pending[i];
    var rest := Without(s.pending, i);
    var s' := Step(k, s, Record(i));
    RemovePending(s.pending, i, p.agent);
    CostBounded(rest, p.agent, C);
    assert Count(s'.counts, Key(p.agent, s.period)) == Count(s.counts, Key(p.agent, s.period)) + p.cost;
    forall q
      ensures CountOf(rest, q) <= k
      ensures Count(s'.counts, Key(q, s.period)) + CostOf(rest, q) <= B
    {
      RemovePending(s.pending, i, q);
      if q != p.agent {
        assert Key(q, s.period) != Key(p.agent, s.period) by {
          if Key(q, s.period) == Key(p.agent, s.period) {
            KeyInjective(q, s.period, p.agent, s.period);
          }
        }
      }
    }
  }

  lemma PeriodCapped(k: nat, L: int, C: int, s: State, period: string)
    requires k >= 1 && 0 < L && 0 <= C && Capped(k, L, C, Reach(k, L, C), s) && Enabled(k, s, NextPeriod(period))
    ensures Capped(k, L, C, Reach(k, L, C), s.(period := period))
  {
    forall agent
      ensures Count(s.counts, Key(agent, period)) + CostOf(s.pending, agent) <= Reach(k, L, C)
    {
      CostBounded(s.pending, agent, Largest(L, C));
    }
  }

  /** In every interleaving, months turning over included, no counter passes
      L + (k-1)min(C, L), and neither does a counter with its agent's pending
      charges. */
  lemma {:induction false} CapUnderConcurrency(k: nat, L: int, C: int, acts: seq<Action>)
    requires k >= 1 && 0 < L && 0 <= C && L + C < TWO63 && Reach(k, L, C) < TWO63 && Within(L, C, acts)
    ensures Capped(k, L, C, Reach(k, L, C), Run(k, acts))
  {
    hide Capped, Enabled, Reach;
    if acts == [] {
      EmptyCapped(k, L, C);
    } else {
      var init := acts[..|acts| - 1];
      var a := acts[|acts| - 1];
      CapUnderConcurrency(k, L, C, init);
      var s := Run(k, init);
      if Enabled(k, s, a) {
        match a
        case Check(agent, limit, cost) => CheckCapped(k, L, C, s, agent, limit, cost);
        case Record(i) =>
          RecordEnabled(k, s, i);
          RecordCapped(k, L, C, Reach(k, L, C), s, i);
        case NextPeriod(p) => PeriodCapped(k, L, C, s, p);
      }
    }
  }

  lemma RecordEnabled(k: nat, s: State, i: nat)
    requires Enabled(k, s, Record(i))
    ensures i < |s.pending|
  {
  }

  lemma EmptyCapped(k: nat, L: int, C: int)
    requires k >= 1 && 0 < L && 0 <= C
    ensures Capped(k, L, C, Reach(k, L, C), INIT)
  {
    MulMonotone(0, k - 1, Largest(L, C));
  }

  /** One at a time, the cap is never passed. */
  lemma CapSequential(L: int, C: int, acts: seq<Action>, key: string)
    requires 0 < L && 0 <= C && L + C < TWO63 && Within(L, C, acts) && key in Run(1, acts).counts
    ensures Run(1, acts).counts[key] <= L
  {
    CapUnderConcurrency(1, L, C, acts);
  }

  /******* The cap is tight, and needs its conditions *******/

  ghost predicate Reachable(k: nat, L: int, C: int, s: State) {
    exists acts :: Within(L, C, acts) && Run(k, acts) == s
  }

  lemma Go(k: nat, L: int, C: int, s: State, a: Action) returns (s': State)
    requires Reachable(k, L, C, s)
    requires a.Check? ==> a.agent != "" && 0 < a.limit <= L && 0 <= a.cost <= C
    ensures s' == Step(k, s, a) && Reachable(k, L, C, s')
  {
    var acts :| Within(L, C, acts) && Run(k, acts) == s;
    var acts' := acts + [a];
    assert acts'[..|acts|] == acts;
    assert Within(L, C, acts');
    s' := Step(k, s, a);
    assert Run(k, acts') == s';
  }

  const AGENT := "agent.example"

  function Spent(n: nat): map<string, int> {
    if n == 0 then map[] else map[Key(AGENT, INIT.period) := n]
  }

  /** Unit-cost requests, one at a time, bring the counter to any n up to L. */
  lemma {:induction false} SpendTo(k: nat, L: int, C: int, n: nat)
    requires k >= 1 && 1 <= C && n <= L < TWO63
    ensures Reachable(k, L, C, INIT.(counts := Spent(n)))
  {
    hide Reachable;
    if n == 0 {
      StartReachable(k, L, C);
    } else {
      SpendTo(k, L, C, n - 1);
      var s := INIT.(counts := Spent(n - 1));
      s := Go(k, L, C, s, Check(AGENT, L, 1));
      assert s.pending == [Pending(AGENT, 1)];
      s := Go(k, L, C, s, Record(0));
      assert s.counts == Spent(n) && s.pending == [];
    }
  }

  lemma StartReachable(k: nat, L: int, C: int)
    ensures Reachable(k, L, C, INIT.(counts := Spent(0)))
  {
    assert Within(L, C, []) && Run(k, []) == INIT;
  }

  function Repeated(n: nat, C: int): seq<Pending> {
    if n == 0 then [] else Repeated(n - 1, C) + [Pending(AGENT, C)]
  }

  lemma {:induction false} RepeatedShape(n: nat, C: int)
    ensures |Repeated(n, C)| == n && CountOf(Repeated(n, C), AGENT) == n
    ensures n > 0 ==> Repeated(n, C)[n - 1] == Pending(AGENT, C) && Without(Repeated(n, C), n - 1) == Repeated(n - 1, C)
  {
    if n == 0 {
    } else {
      RepeatedShape(n - 1, C);
      AppendPending(Repeated(n - 1, C), Pending(AGENT, C), AGENT);
    }
  }

  /** n requests of cost C pass the check while the counter stands at L - C. */
  lemma {:induction false} CheckTogether(k: nat, L: int, C: int, n: nat)
    requires n <= k && k >= 1 && 1 <= C <= L < TWO63
    ensures Reachable(k, L, C, State(INIT.period, Spent(L - C), Repeated(n, C)))
  {
    hide Reachable;
    if n == 0 {
      SpendTo(k, L, C, L - C);
    } else {
      CheckTogether(k, L, C, n - 1);
      RepeatedShape(n - 1, C);
      var s := Go(k, L, C, State(INIT.period, Spent(L - C), Repeated(n - 1, C)), Check(AGENT, L, C));
    }
  }

  /** m of the k then record. */
  lemma {:induction false} RecordTogether(k: nat, L: int, C: int, m: nat)
    requires m <= k && k >= 1 && 1 <= C <= L && L < TWO63 && L - C + m * C < TWO63
    ensures m * C >= 0 && Reachable(k, L, C, State(INIT.period, Spent(L - C + m * C), Repeated(k - m, C)))
  {
    hide Reachable;
    MulMonotone(0, m, C);
    if m == 0 {
      CheckTogether(k, L, C, k);
    } else {
      var before := L - C + (m - 1) * C;
      assert before + C == L - C + m * C;
      RecordTogether(k, L, C, m - 1);
      RepeatedShape(k - m + 1, C);
      MulMonotone(1, m, C);
      var s := Go(k, L, C, State(INIT.period, Spent(before), Repeated(k - m + 1, C)), Record(k - m));
      assert s.counts == Spent(before + C);
    }
  }

  lemma ReachableWithin(k: nat, L: int, M: int, C: int, s: State)
    requires Reachable(k, L, M, s) && M <= C
    ensures Reachable(k, L, C, s)
  {
    var acts :| Within(L, M, acts) && Run(k, acts) == s;
    assert Within(L, C, acts);
  }

  /** The bound is reached: some run brings a counter to exactly L + (k-1)min(C, L). */
  lemma CapReached(k: nat, L: int, C: int)
    requires k >= 1 && 0 < L && 1 <= C && Reach(k, L, C) < TWO63
    ensures exists s :: Reachable(k, L, C, s) && Count(s.counts, Key(AGENT, INIT.period)) == Reach(k, L, C)
  {
    hide Reachable;
    var M := Largest(L, C);
    assert L - M + k * M == Reach(k, L, C);
    MulMonotone(1, k, M);
    RecordTogether(k, L, M, k);
    var s := State(INIT.period, Spent(L - M + k * M), Repeated(0, M));
    ReachableWithin(k, L, M, C, s);
    assert Count(s.counts, Key(AGENT, INIT.period)) == Reach(k, L, C);
  }

  /******* The 64-bit range of the cap *******/

  /** Some run leaves a counter below zero. */
  ghost predicate Wraps(k: nat, L: int, C: int) {
    exists s :: Reachable(k, L, C, s) && Count(s.counts, Key(AGENT, INIT.period)) < 0
  }

  /** A check that wraps: at TWO63 - C the largest charge looks negative. */
  lemma CheckWraps(k: nat, L: int, C: int)
    requires k >= 1 && 0 < L < TWO63 && 0 <= C < TWO63 <= L + C
    ensures Wraps(k, L, C)
  {
    hide Reachable;
    var n := TWO63 - C;
    SpendTo(k, L, C, n);
    var s := INIT.(counts := Spent(n));
    s := Go(k, L, C, s, Check(AGENT, L, C));
    assert s.pending == [Pending(AGENT, C)];
    s := Go(k, L, C, s, Record(0));
    assert Count(s.counts, Key(AGENT, INIT.period)) == -TWO63;
  }

  /** How many of the k records fit before the counter wraps. */
  lemma {:induction false} WrapPoint(k: nat, L: int, M: int) returns (m: nat)
    requires k >= 1 && 1 <= M <= L < TWO63 <= L + (k - 1) * M
    ensures m < k && L - M + m * M < TWO63 <= L - M + (m + 1) * M
  {
    assert L - M + k * M == L + (k - 1) * M;
    if L - M + (k - 1) * M < TWO63 {
      m := k - 1;
    } else {
      assert L - M + (k - 1) * M == L + (k - 2) * M;
      m := WrapPoint(k - 1, L, M);
    }
  }

  /** Records that wrap: enough requests checked together carry the counter over. */
  lemma RecordsWrap(k: nat, L: int, C: int)
    requires k >= 1 && 0 < L < TWO63 && 0 <= C && L + C < TWO63 <= Reach(k, L, C)
    ensures Wraps(k, L, C)
  {
    hide Reachable;
    var M := Largest(L, C);
    assert M >= 1;
    var m := WrapPoint(k, L, M);
    RecordTogether(k, L, M, m);
    RepeatedShape(k - m, M);
    var before := L - M + m * M;
    assert before + M == L - M + (m + 1) * M;
    var s := State(INIT.period, Spent(before), Repeated(k - m, M));
    s := Go(k, L, M, s, Record(k - m - 1));
    assert Count(s.counts, Key(AGENT, INIT.period)) == Wrap64(before + M) < 0;
    ReachableWithin(k, L, M, C, s);
  }

  /** In every interleaving of requests with limits up to L and costs up to C, at
      most k of an agent's in flight, every counter stays between zero and
      L + (k-1)min(C, L), exactly when that bound and L + C fit 64 bits. */
  lemma CapIff(k: nat, L: int, C: int)
    requires k >= 1 && 0 < L < TWO63 && 0 <= C < TWO63
    ensures L + C < TWO63 && Reach(k, L, C) < TWO63 <==>
            forall acts | Within(L, C, acts) :: Capped(k, L, C, Reach(k, L, C), Run(k, acts))
  {
    hide Run, Within, Reach;
    if L + C < TWO63 && Reach(k, L, C) < TWO63 {
      forall acts | Within(L, C, acts)
        ensures Capped(k, L, C, Reach(k, L, C), Run(k, acts))
      {
        CapUnderConcurrency(k, L, C, acts);
      }
    } else {
      if L + C >= TWO63 {
        CheckWraps(k, L, C);
      } else {
        RecordsWrap(k, L, C);
      }
      var s :| Reachable(k, L, C, s) && Count(s.counts, Key(AGENT, INIT.period)) < 0;
      var acts :| Within(L, C, acts) && Run(k, acts) == s;
      assert !Capped(k, L, C, Reach(k, L, C), Run(k, acts));
    }
  }

  /** A request that states no limit is recorded without being checked, so it
      carries the counter past any cap even alone. */
  lemma UncappedRequestPasses(cap: nat)
    requires cap + 1 < TWO63
    ensures exists acts :: Count(Run(1, acts).counts, Key(AGENT, INIT.period)) > cap
  {
    var a := [Check(AGENT, 0, cap + 1), Record(0)];
    assert a[..1] == [Check(AGENT, 0, cap + 1)] && a[..1][..0] == [];
    assert Run(1, []) == INIT;
    assert Run(1, a[..1]) == INIT.(pending := [Pending(AGENT, cap + 1)]);
    assert a[..|a| - 1] == a[..1];
    assert Count(Run(1, a).counts, Key(AGENT, INIT.period)) == cap + 1;
  }

  /******* Exact money *******/

  const SCALE: real := 100_000_000.0

  /** Truncation toward zero. */
  function Trunc(x: real): int { if x >= 0.0 then x.Floor else -((-x).Floor) }

  /** DecimalToFixedPoint: eight places, the rest dropped. */
  function FixedPoint(d: real): int { Wrap64(Trunc(d * SCALE)) }

  /** One resolve's charge: a unit price and an estimated quantity. */
  datatype Charge = Charge(unit: real, quantity: int)

  /** What the exchange bills: the unit price times the quantity, at least one. */
  function Exact(c: Charge): real { c.unit * (if c.quantity < 1 then 1 else c.quantity) as real }

  /** The charge in whole units of the eighth place, before it is put in 64 bits. */
  function Units(c: Charge): int { Trunc(Exact(c) * SCALE) }

  function CostFixed(c: Charge): int { FixedPoint(Exact(c)) }

  lemma WrapOfSum(a: int, b: int)
    ensures Wrap64(a + Wrap64(b)) == Wrap64(a + b)
  {
    var q := (b + TWO63) / TWO64;
    assert Wrap64(b) == b - q * TWO64;
  }

  /** A charge that passes the limit is admitted exactly when the remaining budget
      is a non-negative 64-bit number and the projected sum, kept to 64 bits, is
      negative or within the limit. */
  lemma AdmitsOverspend(agent: string, limit: int, consumed: int, c: Charge)
    requires agent != "" && 0 < limit < TWO63 && InInt64(consumed)
    ensures var projected := consumed + Units(c);
            Admits(agent, limit, consumed, CostFixed(c)) && projected > limit <==>
            && consumed <= limit < consumed + TWO63 && projected > limit
            && (projected % TWO64 >= TWO63 || projected % TWO64 <= limit)
  {
    hide Exact, Trunc;
    var projected := consumed + Units(c);
    WrapOfSum(consumed, Units(c));
    WrapIs(projected);
    WrapIs(limit - consumed);
  }

  lemma WrapIs(n: int)
    ensures Wrap64(n) == if n % TWO64 >= TWO63 then n % TWO64 - TWO64 else n % TWO64
  {
  }

  /** What one resolve leaves in the counter it read. */
  function NextCount(limit: int, consumed: int, c: Charge): int {
    if Admits(AGENT, limit, consumed, CostFixed(c)) && CostFixed(c) > 0 then Wrap64(consumed + CostFixed(c)) else consumed
  }

  /** What the sequential gate leaves in one counter after a list of charges. */
  function Sequential(limit: int, charges: seq<Charge>): int {
    if charges == [] then 0
    else NextCount(limit, Sequential(limit, charges[..|charges| - 1]), charges[|charges| - 1])
  }

  /** How many of the charges were admitted, and their exact total. */
  function Admitted(limit: int, charges: seq<Charge>): (nat, real) {
    if charges == [] then (0, 0.0)
    else
      var (n, total) := Admitted(limit, charges[..|charges| - 1]);
      var last := charges[|charges| - 1];
      if Admits(AGENT, limit, Sequential(limit, charges[..|charges| - 1]), CostFixed(last))
      then (n + 1, total + Exact(last))
      else (n, total)
  }

  /** Non-negative charges of at most M units each. */
  predicate UpTo(M: int, charges: seq<Charge>) {
    forall i | 0 <= i < |charges| :: 0.0 <= Exact(charges[i]) && Units(charges[i]) <= M
  }

  /** The admitted charges total less than the limit plus one unit each. */
  predicate TotalBounded(limit: int, charges: seq<Charge>) {
    var (n, total) := Admitted(limit, charges);
    n > 0 ==> total * SCALE < (limit + n) as real
  }

  /** While the limit and the largest charge fit 64 bits together, the counter
      stays within the limit and trails the exact total by less than one unit per
      admitted charge. */
  lemma {:induction false} ExactAgainstCounter(limit: int, M: int, charges: seq<Charge>)
    requires 0 < limit && limit + M < TWO63 && UpTo(M, charges)
    ensures 0 <= Sequential(limit, charges) <= limit
    ensures var (n, total) := Admitted(limit, charges);
            && total * SCALE <= (Sequential(limit, charges) + n) as real
            && (n > 0 ==> total * SCALE < (Sequential(limit, charges) + n) as real)
  {
    hide Exact;
    if charges == [] {
    } else {
      var init, last := charges[..|charges| - 1], Exact(charges[|charges| - 1]);
      ExactAgainstCounter(limit, M, init);
      var cost := Trunc(last * SCALE);
      assert cost == Units(charges[|charges| - 1]);
      assert 0.0 <= last * SCALE;
      assert cost as real <= last * SCALE < (cost + 1) as real;
      var (n, total) := Admitted(limit, init);
      assert (total + last) * SCALE == total * SCALE + last * SCALE;
    }
  }

  /******* The range is needed *******/

  /** A price and a quantity the wire admits: the charge becomes negative, is
      admitted under every limit, records nothing, and breaks the bound. */
  lemma ChargeWraps(limit: int)
    requires 0 < limit < TWO63
    ensures var c := Charge(43.0, 2147483647);
            && CostFixed(c) < 0 && Admits(AGENT, limit, 0, CostFixed(c)) && Sequential(limit, [c]) == 0
            && UpTo(Units(c), [c]) && !TotalBounded(limit, [c])
  {
    var c := Charge(43.0, 2147483647);
    assert Exact(c) == 92341796821.0;
    assert Exact(c) * SCALE == 9234179682100000000.0;
    assert Units(c) == 9234179682100000000;
    assert [c][..0] == [];
    assert Sequential(limit, []) == 0 && Admitted(limit, []) == (0, 0.0);
    assert Admitted(limit, [c]) == (1, Exact(c));
  }

  /** A charge of k units and all but d of another. */
  function Almost(k: int, d: real): Charge { Charge(((k + 1) as real - d) / SCALE, 1) }

  lemma AlmostUnits(k: nat, d: real)
    requires 0.0 < d <= 1.0
    ensures Exact(Almost(k, d)) * SCALE == (k + 1) as real - d && Units(Almost(k, d)) == k && 0.0 <= Exact(Almost(k, d))
  {
    var c := Almost(k, d);
    assert Exact(c) == c.unit;
  }

  /** The exact total of the admitted charges, in units. */
  function InUnits(limit: int, charges: seq<Charge>): real { Admitted(limit, charges).1 * SCALE }

  /** One more admitted charge. */
  lemma OneMore(limit: int, init: seq<Charge>, c: Charge)
    requires Admits(AGENT, limit, Sequential(limit, init), CostFixed(c))
    ensures Sequential(limit, init + [c]) == NextCount(limit, Sequential(limit, init), c)
    ensures Admitted(limit, init + [c]).0 == Admitted(limit, init).0 + 1
    ensures InUnits(limit, init + [c]) == InUnits(limit, init) + Exact(c) * SCALE
  {
    hide Exact, CostFixed, NextCount, Admits;
    assert (init + [c])[..|init|] == init;
    var total, more := Admitted(limit, init).1, Exact(c);
    assert (total + more) * SCALE == total * SCALE + more * SCALE;
  }

  lemma SmallCost(c: Charge)
    requires InInt64(Units(c))
    ensures CostFixed(c) == Units(c)
  {
  }

  function Steps(k: nat, d: real): seq<Charge> { seq(k, _ => Almost(1, d)) }

  function Times(k: nat, e: real): real { if k == 0 then 0.0 else Times(k - 1, e) + e }

  lemma {:induction false} TimesIsProduct(k: nat, e: real)
    ensures Times(k, e) == k as real * e
  {
    if k == 0 {
    } else {
      TimesIsProduct(k - 1, e);
      assert k as real == (k - 1) as real + 1.0;
    }
  }

  lemma StepsNext(k: nat, d: real)
    requires k > 0
    ensures Steps(k, d) == Steps(k - 1, d) + [Almost(1, d)]
  {
    hide Almost;
  }

  /** k charges of one unit and a fraction bring the counter to k. */
  lemma {:induction false} Climb(limit: int, d: real, k: nat)
    requires k <= limit < TWO63 && 0.0 < d <= 1.0
    ensures Sequential(limit, Steps(k, d)) == k && Admitted(limit, Steps(k, d)).0 == k
    ensures InUnits(limit, Steps(k, d)) == Times(k, 2.0 - d)
  {
    if k == 0 {
      assert Steps(0, d) == [];
    } else {
      hide Almost, Exact, Units, CostFixed, Steps, Sequential, Admitted, InUnits, NextCount, Admits;
      var c := Almost(1, d);
      StepsNext(k, d);
      AlmostUnits(1, d);
      assert CostFixed(c) == 1;
      Climb(limit, d, k - 1);
      OneMore(limit, Steps(k - 1, d), c);
    }
  }

  /** From the limit, one more charge of TWO63 - limit units wraps and is admitted. */
  lemma LastWraps(limit: int, c: Charge)
    requires 0 < limit < TWO63 && Units(c) == TWO63 - limit
    ensures Admits(AGENT, limit, limit, CostFixed(c))
  {
    hide Units;
    SmallCost(c);
  }

  lemma StepsUpTo(limit: nat, d: real, x: nat, M: int)
    requires 0.0 < d <= 1.0 && 1 <= x <= M
    ensures UpTo(M, Steps(limit, d) + [Almost(x, d)])
  {
    AlmostUnits(1, d);
    AlmostUnits(x, d);
    hide Almost, Exact, Units;
  }

  lemma Unbounded(limit: int, charges: seq<Charge>, x: int)
    requires limit > 0 && Admitted(limit, charges).0 == limit + 1 && InUnits(limit, charges) == (2 * limit + x) as real && x >= 1
    ensures !TotalBounded(limit, charges)
  {
    hide Admitted;
  }

  lemma BoundBreaks(limit: int, M: int) returns (charges: seq<Charge>)
    requires 0 < limit < TWO63 <= limit + M
    ensures UpTo(M, charges) && !TotalBounded(limit, charges)
  {
    hide *;
    var d, x := 1.0 / (limit + 1) as real, TWO63 - limit;
    var last := Almost(x, d);
    charges := Steps(limit, d) + [last];
    StepsUpTo(limit, d, x, M);
    AlmostUnits(x, d);
    Climb(limit, d, limit);
    TimesIsProduct(limit, 2.0 - d);
    LastWraps(limit, last);
    OneMore(limit, Steps(limit, d), last);
    Unbounded(limit, charges, x);
  }

  /** Admitted one at a time, non-negative charges of up to M units always total
      less than the limit plus one unit each, exactly when the limit and M fit 64
      bits together: within that range truncation is the only loss. */
  lemma ExactTotalBoundedIff(limit: int, M: nat)
    requires 0 < limit < TWO63
    ensures (forall charges | UpTo(M, charges) :: TotalBounded(limit, charges)) <==> limit + M < TWO63
  {
    hide UpTo;
    if limit + M < TWO63 {
      forall charges | UpTo(M, charges)
        ensures TotalBounded(limit, charges)
      {
        ExactAgainstCounter(limit, M, charges);
      }
    } else {
      var charges := BoundBreaks(limit, M);
    }
  }
}

/** The cache under concurrent callers, for one host: every memory access is a
    step, loads are serialised by the single flight, and refreshes interleave
    anywhere. The flight's re-check only delays a load, so a load may start
    whenever the flight is free: more runs than the program has. */
module CacheProtocol {
  import opened Text

  /** begun is the step at which the load that produced it started. */
  datatype Entry = Entry(doc: string, begun: nat, stored: int, until: int)

  datatype Miss = Miss(begun: nat, stored: int, until: int)

  /** The single flight: free, waiting for the origin, or between the two halves
      of a store. */
  datatype Flight = Free | Loading(begun: nat) | Put(entry: Entry) | Marked(miss: Miss)

  datatype State = State(
    pos: Option<Entry>, neg: Option<Miss>, flight: Flight, now: int, steps: nat)

  datatype Action =
    | Tick(elapsed: nat)
    | StartLoad
    | LoadFails
    | PutEntry(doc: string, life: int)
    | ClearMark
    | SetMark
    | DropEntry
    | RefreshDrop
    | RefreshClear

  const START := State(None, None, Free, 0, 0)

  predicate Enabled(s: State, a: Action, ttl: int) {
    match a
    case StartLoad => s.flight.Free?
    case LoadFails => s.flight.Loading?
    case PutEntry(_, life) => s.flight.Loading? && life <= ttl
    case SetMark => s.flight.Loading?
    case ClearMark => s.flight.Put?
    case DropEntry => s.flight.Marked?
    case _ => true
  }

  function Effect(s: State, a: Action, negativeTTL: int): State
    requires a.PutEntry? || a.SetMark? ==> s.flight.Loading?
  {
    match a
    case Tick(d) => s.(now := s.now + d)
    case StartLoad => s.(flight := Loading(s.steps))
    case LoadFails => s.(flight := Free)
    case PutEntry(doc, life) =>
      var e := Entry(doc, s.flight.begun, s.now, s.now + life);
      s.(pos := Some(e), flight := Put(e))
    case ClearMark => s.(neg := None, flight := Free)
    case SetMark =>
      var n := Miss(s.flight.begun, s.now, s.now + negativeTTL);
      s.(neg := Some(n), flight := Marked(n))
    case DropEntry => s.(pos := None, flight := Free)
    case RefreshDrop => s.(pos := None)
    case RefreshClear => s.(neg := None)
  }

  /** A step that is not enabled does not happen. */
  function Step(s: State, a: Action, ttl: int, negativeTTL: int): State {
    if Enabled(s, a, ttl) then Effect(s, a, negativeTTL).(steps := s.steps + 1) else s
  }

  function Run(s: State, acts: seq<Action>, ttl: int, negativeTTL: int): State {
    if acts == [] then s else Step(Run(s, acts[..|acts| - 1], ttl, negativeTTL), acts[|acts| - 1], ttl, negativeTTL)
  }

  /** Both memories are filled only between the two halves of a store, and the
      load behind each was the latest one to finish. */
  predicate Inv(s: State, ttl: int) {
    && (s.pos.Some? && s.neg.Some? ==> s.flight.Put? || s.flight.Marked?)
    && (s.flight.Loading? ==> s.flight.begun < s.steps)
    && (s.flight.Put? ==> s.flight.entry.begun < s.steps && (s.pos.Some? ==> s.pos == Some(s.flight.entry)))
    && (s.flight.Marked? ==> s.flight.miss.begun < s.steps && (s.neg.Some? ==> s.neg == Some(s.flight.miss)))
    && (s.pos.Some? ==> s.pos.value.begun < s.steps && s.pos.value.until <= s.pos.value.stored + ttl && s.pos.value.stored <= s.now)
    && (s.neg.Some? ==> s.neg.value.begun < s.steps)
  }

  lemma {:induction false} RunKeepsInv(acts: seq<Action>, ttl: int, negativeTTL: int)
    ensures Inv(Run(START, acts, ttl, negativeTTL), ttl)
  {
    if acts == [] {
    } else {
      RunKeepsInv(acts[..|acts| - 1], ttl, negativeTTL);
    }
  }

  /** In every interleaving, whenever no store is half done, at most one memory is
      filled. */
  lemma {:induction false} NeverBoth(acts: seq<Action>, ttl: int, negativeTTL: int)
    ensures var s := Run(START, acts, ttl, negativeTTL);
            (s.flight.Free? || s.flight.Loading?) ==> s.pos.None? || s.neg.None?
  {
    RunKeepsInv(acts, ttl, negativeTTL);
  }

  /******* Which step memory comes from *******/

  /** Every step of the run could happen when it did. */
  predicate Possible(acts: seq<Action>, ttl: int, negativeTTL: int) {
    acts == [] ||
    (var n := |acts| - 1;
     Possible(acts[..n], ttl, negativeTTL) && Enabled(Run(START, acts[..n], ttl, negativeTTL), acts[n], ttl))
  }

  predicate TouchesEntry(a: Action) { a.PutEntry? || a.DropEntry? || a.RefreshDrop? }

  predicate TouchesMark(a: Action) { a.SetMark? || a.ClearMark? || a.RefreshClear? }

  function LastSuch(acts: seq<Action>, which: Action -> bool): Option<Action> {
    if acts == [] then None
    else if which(acts[|acts| - 1]) then Some(acts[|acts| - 1])
    else LastSuch(acts[..|acts| - 1], which)
  }

  /** In every interleaving memory holds a document exactly when the last step to
      touch it was a load's store, and then that load's document: no later 404 and
      no later refresh. The same holds of the remembered 404. */
  lemma {:induction false} MemoryIsLastStore(acts: seq<Action>, ttl: int, negativeTTL: int)
    requires Possible(acts, ttl, negativeTTL)
    ensures var s, put := Run(START, acts, ttl, negativeTTL), LastSuch(acts, TouchesEntry);
            && (s.pos.Some? <==> put.Some? && put.value.PutEntry?)
            && (s.pos.Some? ==> s.pos.value.doc == put.value.doc && s.pos.value.until == s.pos.value.stored + put.value.life)
    ensures var s, mark := Run(START, acts, ttl, negativeTTL), LastSuch(acts, TouchesMark);
            && (s.neg.Some? <==> mark.Some? && mark.value.SetMark?)
            && (s.neg.Some? ==> s.neg.value.until == s.neg.value.stored + negativeTTL)
  {
    if acts == [] {
    } else {
      MemoryIsLastStore(acts[..|acts| - 1], ttl, negativeTTL);
    }
  }

  /******* What a refresh guarantees *******/

  /** Nothing later in memory comes from a load that began before step k. */
  ghost predicate OnlySince(s: State, k: nat, ttl: int, negativeTTL: int) {
    forall acts :: var t := Run(s, acts, ttl, negativeTTL); t.pos.Some? ==> t.pos.value.begun >= k
  }

  lemma {:induction false} SinceStays(s: State, k: nat, acts: seq<Action>, ttl: int, negativeTTL: int)
    requires k <= s.steps && s.pos.None? && !s.flight.Loading?
    ensures var t := Run(s, acts, ttl, negativeTTL);
            && k <= t.steps
            && (t.pos.Some? ==> t.pos.value.begun >= k)
            && (t.flight.Loading? ==> t.flight.begun >= k)
  {
    if acts == [] {
    } else {
      SinceStays(s, k, acts[..|acts| - 1], ttl, negativeTTL);
    }
  }

  /** A refresh leaves only documents fetched after it exactly when no load was
      waiting for the origin as it dropped the entry: one that was may still store
      what it fetched before. */
  lemma RefreshIsFreshIff(acts: seq<Action>, ttl: int, negativeTTL: int)
    ensures var s := Run(START, acts, ttl, negativeTTL);
            OnlySince(Step(s, RefreshDrop, ttl, negativeTTL), s.steps, ttl, negativeTTL) <==> !s.flight.Loading?
  {
    var s := Run(START, acts, ttl, negativeTTL);
    var s' := Step(s, RefreshDrop, ttl, negativeTTL);
    hide Run;
    if s.flight.Loading? {
      RunKeepsInv(acts, ttl, negativeTTL);
      StaleStore(s', s.steps, ttl, negativeTTL);
    } else {
      forall more: seq<Action>
        ensures var t := Run(s', more, ttl, negativeTTL); t.pos.Some? ==> t.pos.value.begun >= s.steps
      {
        SinceStays(s', s.steps, more, ttl, negativeTTL);
      }
    }
  }

  lemma StaleStore(s: State, k: nat, ttl: int, negativeTTL: int)
    requires s.flight.Loading? && s.flight.begun < k
    ensures !OnlySince(s, k, ttl, negativeTTL)
  {
    var acts := [PutEntry("stale", ttl)];
    assert acts[..0] == [];
    var t := Run(s, acts, ttl, negativeTTL);
    assert t == Step(Run(s, [], ttl, negativeTTL), acts[0], ttl, negativeTTL);
    assert t.pos.Some? && t.pos.value.begun < k;
  }
}

/** The manifest cache: a positive entry per host with a bounded lifetime, and a
    remembered 404. Its memory is specified by the log of loads and refreshes. */
module ManifestCache {
  import opened Text
  import opened Instant

  /** An origin's answer to one GET: the transport failed, or a status with its
      Cache-Control value and what the body parses to. */
  datatype Fetch<M> = Failed | Got(status: int, cacheControl: string, parsed: Option<M>)

  datatype Answer<M> = Doc(doc: M) | NoDocument(url: string) | InvalidHost | NoClient | BadURL | FetchError | ParseError

  datatype DocEntry<M> = DocEntry(doc: M, expiresAt: int)

  datatype Negative = Negative(until: int, url: string)

  /** What happened to the cache, oldest first. */
  datatype Event<M> =
    | Stored(host: string, doc: M, at: int, until: int)
    | Missed(host: string, url: string, at: int, until: int)
    | Refreshed(host: string)

  /** The clock readings of one call, in order: the two checks, the same two inside
      the single flight, and the moment a load stores its result. */
  datatype Times = Times(get: int, neg: int, getAgain: int, negAgain: int, stored: int)

  predicate Ordered(t: Times) { t.get <= t.neg <= t.getAgain <= t.negAgain <= t.stored }

  function Host(s: string): string { Lower(TrimSpace(s)) }

  /** The cache key is the host without the spaces around it, letter case folded. */
  lemma HostIs(s: string) returns (i: nat, j: nat)
    ensures i <= j <= |s| && (forall k | 0 <= k < i || j <= k < |s| :: IsSpace(s[k]))
    ensures i < j ==> !IsSpace(s[i]) && !IsSpace(s[j - 1])
    ensures |Host(s)| == j - i
    ensures forall k | i <= k < j :: Host(s)[k - i] == if 'A' <= s[k] <= 'Z' then (s[k] as int + 32) as char else s[k]
  {
    i, j := TrimSpaceIs(s);
    assert forall k | i <= k < j :: s[i..j][k - i] == s[k];
  }

  /******* Lifetimes *******/

  const MAX_AGE := "max-age="

  /** The lifetime one directive asks for, when it is shorter than the limit. The
      product is a 64-bit duration and wraps. */
  function Shorter(ttl: int, part: string): Option<int> {
    var p := TrimSpace(part);
    if !(MAX_AGE <= p) then None
    else
      var secs := Atoi(p[|MAX_AGE|..]);
      if secs.Some? && secs.value >= 0 && Wrap64(secs.value * SECOND) < ttl then Some(Wrap64(secs.value * SECOND)) else None
  }

  /** The first directive that asks for less than the limit. */
  function Lifetime(ttl: int, parts: seq<string>): (r: int)
    ensures r <= ttl
  {
    if parts == [] then ttl
    else if Shorter(ttl, parts[0]).Some? then Shorter(ttl, parts[0]).value
    else Lifetime(ttl, parts[1..])
  }

  method TtlFrom(ttl: int, cacheControl: string) returns (r: int)
    ensures r == Lifetime(ttl, Split(cacheControl, ','))
  {
    var parts := Split(cacheControl, ',');
    for i := 0 to |parts|
      invariant Lifetime(ttl, parts) == Lifetime(ttl, parts[i..])
    {
      assert parts[i..][0] == parts[i] && parts[i..][1..] == parts[i + 1..];
      var part := TrimSpace(parts[i]);
      if !(MAX_AGE <= part) {
        continue;
      }
      var secs := Atoi(part[|MAX_AGE|..]);
      if secs.Some? && secs.value >= 0 {
        var d := Wrap64(secs.value * SECOND);
        if d < ttl {
          return d;
        }
      }
    }
    return ttl;
  }

  lemma LoneMaxAge(ttl: int, secs: int)
    requires 0 <= secs < TWO63
    ensures Lifetime(ttl, Split(MAX_AGE + Itoa(secs), ',')) ==
            if Wrap64(secs * SECOND) < ttl then Wrap64(secs * SECOND) else ttl
  {
    var s := MAX_AGE + Itoa(secs);
    assert forall i | 0 <= i < |s| :: s[i] != ',' && !IsSpace(s[i]);
    SplitNothing(s, ',');
    assert TrimSpace(s) == s && s[|MAX_AGE|..] == Itoa(secs) && MAX_AGE <= s;
    AtoiItoa(secs);
    assert [s][1..] == [];
  }

  /** A lone max-age directive is honoured, capped at the limit, exactly when the
      seconds fit a 64-bit duration or wrap to at least the limit. */
  lemma MaxAgeHonouredIff(ttl: int, secs: int)
    requires 0 < ttl < TWO63 && 0 <= secs < TWO63
    ensures var wanted := secs * SECOND;
            Lifetime(ttl, Split(MAX_AGE + Itoa(secs), ',')) == (if wanted < ttl then wanted else ttl) <==>
            wanted < TWO63 || Wrap64(wanted) >= ttl
  {
    hide Lifetime, Split, Itoa;
    LoneMaxAge(ttl, secs);
  }

  /** About 292 years of max-age is stored as already expired. */
  lemma HugeMaxAgeExpiresAtOnce(ttl: int)
    requires 0 < ttl < TWO63
    ensures Lifetime(ttl, Split(MAX_AGE + Itoa(9223372037), ',')) < 0
  {
    hide Lifetime, Split, Itoa;
    LoneMaxAge(ttl, 9223372037);
  }

  /** The shortest lifetime any directive asks for, at most the limit. */
  function Shortest(ttl: int, parts: seq<string>): (r: int)
    ensures r <= ttl
    ensures forall i | 0 <= i < |parts| && Shorter(ttl, parts[i]).Some? :: r <= Shorter(ttl, parts[i]).value
    ensures r == ttl || exists i | 0 <= i < |parts| :: Shorter(ttl, parts[i]) == Some(r)
  {
    if parts == [] then ttl
    else
      var rest := Shortest(ttl, parts[..|parts| - 1]);
      var last := Shorter(ttl, parts[|parts| - 1]);
      assert forall i | 0 <= i < |parts| - 1 :: parts[..|parts| - 1][i] == parts[i];
      if last.Some? && last.value < rest then last.value else rest
  }

  /** Directive i is the first that asks for less than the limit. */
  predicate FirstShorter(ttl: int, parts: seq<string>, i: nat) {
    i < |parts| && Shorter(ttl, parts[i]).Some? && forall j | 0 <= j < i :: Shorter(ttl, parts[j]).None?
  }

  lemma {:induction false} LifetimeIsFirst(ttl: int, parts: seq<string>)
    ensures if exists i: nat :: FirstShorter(ttl, parts, i)
            then exists i: nat :: FirstShorter(ttl, parts, i) && Shorter(ttl, parts[i]) == Some(Lifetime(ttl, parts))
            else Lifetime(ttl, parts) == ttl && forall j | 0 <= j < |parts| :: Shorter(ttl, parts[j]).None?
  {
    hide Shorter;
    if parts == [] {
    } else if Shorter(ttl, parts[0]).Some? {
      assert FirstShorter(ttl, parts, 0);
    } else {
      var rest := parts[1..];
      LifetimeIsFirst(ttl, rest);
      if i: nat :| FirstShorter(ttl, rest, i) && Shorter(ttl, rest[i]) == Some(Lifetime(ttl, rest)) {
        assert FirstShorter(ttl, parts, i + 1);
      } else {
        assert forall j | 1 <= j < |parts| :: parts[j] == rest[j - 1];
      }
    }
  }

  /** Over any header the lifetime is the shortest one asked for, exactly when no
      directive asks for less than the first that asks for less than the limit. */
  lemma ShortestHonouredIff(ttl: int, parts: seq<string>)
    ensures Lifetime(ttl, parts) == Shortest(ttl, parts) <==>
            forall i: nat, j | FirstShorter(ttl, parts, i) && 0 <= j < |parts| && Shorter(ttl, parts[j]).Some? ::
              Shorter(ttl, parts[i]).value <= Shorter(ttl, parts[j]).value
  {
    hide Shorter, Lifetime;
    LifetimeIsFirst(ttl, parts);
  }

  /** Of two directives the code takes the first. */
  lemma FirstNotShortest(ttl: int)
    requires 5 * SECOND < ttl
    ensures Lifetime(ttl, ["max-age=5", "max-age=1"]) == 5 * SECOND
    ensures Shortest(ttl, ["max-age=5", "max-age=1"]) == SECOND
  {
    var parts := ["max-age=5", "max-age=1"];
    DigitAsked(ttl, "max-age=5", 5);
    DigitAsked(ttl, "max-age=1", 1);
    hide Shorter;
    assert parts[..1] == ["max-age=5"] && ["max-age=5"][..0] == [];
  }

  lemma DigitAsked(ttl: int, part: string, n: nat)
    requires n < 10 && part == MAX_AGE + [CharOf(n)] && n * SECOND < ttl
    ensures Shorter(ttl, part) == Some(n * SECOND)
  {
    assert forall i | 0 <= i < |part| :: !IsSpace(part[i]);
    assert TrimSpace(part) == part && part[|MAX_AGE|..] == [CharOf(n)] == Itoa(n) && MAX_AGE <= part;
    AtoiItoa(n);
  }

  /******* What the cache should remember *******/

  /** The last thing that happened to a host. */
  function Last<M>(log: seq<Event<M>>, h: string): Option<Event<M>> {
    if log == [] then None
    else if log[|log| - 1].host == h then Some(log[|log| - 1])
    else Last(log[..|log| - 1], h)
  }

  /** The answer memory owes: the last load's result, strictly inside its lifetime,
      unless a refresh came after it. */
  function Recall<M>(log: seq<Event<M>>, h: string, tPos: int, tNeg: int): Option<Answer<M>> {
    match Last(log, h)
    case Some(Stored(_, m, _, until)) => if tPos < until then Some(Doc(m)) else None
    case Some(Missed(_, url, _, until)) => if tNeg < until then Some(NoDocument(url)) else None
    case _ => None
  }

  ghost predicate RemembersAt<M>(
    log: seq<Event<M>>, entries: map<string, DocEntry<M>>, negative: map<string, Negative>, h: string)
  {
    match Last(log, h)
    case Some(Stored(_, m, _, until)) => h in entries && entries[h] == DocEntry(m, until) && h !in negative
    case Some(Missed(_, url, _, until)) => h !in entries && h in negative && negative[h] == Negative(until, url)
    case _ => h !in entries && h !in negative
  }

  ghost predicate Remembers<M>(log: seq<Event<M>>, entries: map<string, DocEntry<M>>, negative: map<string, Negative>) {
    forall h :: RemembersAt(log, entries, negative, h)
  }

  /** Event i is the last one of its host. */
  predicate LastOfHost<M>(log: seq<Event<M>>, i: nat) {
    i < |log| && forall j | i < j < |log| :: log[j].host != log[i].host
  }

  /** Memory is exactly the last completed load since the last refresh. */
  lemma {:induction false} LastIsLast<M>(log: seq<Event<M>>, h: string, e: Event<M>)
    ensures Last(log, h) == Some(e) <==> e.host == h && exists i: nat :: LastOfHost(log, i) && log[i] == e
  {
    if log == [] {
    } else {
      var n := |log| - 1;
      var init := log[..n];
      LastIsLast(init, h, e);
      if log[n].host == h {
        assert LastOfHost(log, n);
      } else {
        LastOfHostInit(log, n, h);
      }
    }
  }

  lemma LastOfHostInit<M>(log: seq<Event<M>>, n: nat, h: string)
    requires n == |log| - 1 && log[n].host != h
    ensures forall i | 0 <= i < n && log[i].host == h :: LastOfHost(log, i) <==> LastOfHost(log[..n], i)
  {
    assert forall j | 0 <= j < n :: log[..n][j] == log[j];
  }

  /** No stored document outlives the configured lifetime. */
  ghost predicate Bounded<M>(log: seq<Event<M>>, ttl: int, negativeTTL: int) {
    forall e | e in log ::
      (e.Stored? ==> e.until <= e.at + ttl) && (e.Missed? ==> e.until == e.at + negativeTTL)
  }

  /** What one completed load returns and adds to the log: only a 404 and a parsed
      success change anything. */
  function AfterLoad<M>(ttl: int, negativeTTL: int, url: Option<string>, hasClient: bool, h: string, t: int, f: Fetch<M>)
    : (Answer<M>, seq<Event<M>>)
  {
    if !hasClient then (NoClient, [])
    else if url.None? then (BadURL, [])
    else if f.Failed? then (FetchError, [])
    else if f.status == 404 then (NoDocument(url.value), [Missed(h, url.value, t, t + negativeTTL)])
    else if f.status < 200 || f.status >= 300 then (FetchError, [])
    else if f.parsed.None? then (ParseError, [])
    else (Doc(f.parsed.value), [Stored(h, f.parsed.value, t, t + Lifetime(ttl, Split(f.cacheControl, ',')))])
  }

  /** One answer of the origin, host reachable: a parsed success is kept for the lone
      max-age it states when that is shorter than the limit, and for the limit when it
      states nothing; a 404 is kept for the negative lifetime; the rest keep nothing. */
  lemma LoadKeeps<M>(ttl: int, negativeTTL: int, url: string, h: string, t: int, f: Fetch<M>)
    ensures var (r, more) := AfterLoad(ttl, negativeTTL, Some(url), true, h, t, f);
            && (f.Got? && f.status == 404 ==> r == NoDocument(url) && more == [Missed(h, url, t, t + negativeTTL)])
            && (f.Failed? || (f.status != 404 && !(200 <= f.status < 300)) ==> r == FetchError && more == [])
            && (f.Got? && 200 <= f.status < 300 && f.parsed.None? ==> r == ParseError && more == [])
            && (f.Got? && 200 <= f.status < 300 && f.parsed.Some? ==>
                  && r == Doc(f.parsed.value) && |more| == 1
                  && more[0] == Stored(h, f.parsed.value, t, more[0].until)
                  && (f.cacheControl == "" ==> more[0].until == t + ttl)
                  && (forall n | 0 <= n && n * SECOND < TWO63 && n * SECOND < ttl && f.cacheControl == "max-age=" + Itoa(n) ::
                        more[0].until == t + n * SECOND))
  {
    hide Lifetime, Itoa, Split;
    NoDirective(ttl);
    forall n | 0 <= n && n * SECOND < TWO63 && n * SECOND < ttl
      ensures Lifetime(ttl, Split("max-age=" + Itoa(n), ',')) == n * SECOND
    {
      LoneMaxAge(ttl, n);
    }
  }

  lemma NoDirective(ttl: int)
    ensures Lifetime(ttl, Split("", ',')) == ttl
  {
    assert Split("", ',') == [""] && [""][1..] == [];
  }

  lemma LogGrows<M>(log: seq<Event<M>>, e: Event<M>, entries: map<string, DocEntry<M>>, negative: map<string, Negative>,
                    entries': map<string, DocEntry<M>>, negative': map<string, Negative>)
    requires Remembers(log, entries, negative)
    requires forall h | h != e.host ::
               && (h in entries' <==> h in entries) && (h in entries ==> entries'[h] == entries[h])
               && (h in negative' <==> h in negative) && (h in negative ==> negative'[h] == negative[h])
    requires RemembersAt([e], entries', negative', e.host)
    ensures Remembers(log + [e], entries', negative')
  {
    var log' := log + [e];
    assert log'[..|log|] == log && [e][0] == e;
    forall h
      ensures RemembersAt(log', entries', negative', h)
    {
      assert RemembersAt(log, entries, negative, h);
      if h == e.host {
        assert Last(log', h) == Some(e) && Last([e], h) == Some(e);
      } else {
        assert Last(log', h) == Last(log, h);
      }
    }
  }

  /** Neither memory of h is still good. */
  predicate Lapsed<M>(entries: map<string, DocEntry<M>>, negative: map<string, Negative>, h: string, t: Times) {
    (h in entries ==> entries[h].expiresAt <= t.get) && (h in negative ==> negative[h].until <= t.neg)
  }

  /** Both memories say the same of every host but h. */
  ghost predicate OthersKept<M>(h: string, was: map<string, DocEntry<M>>, wasNot: map<string, Negative>,
                                entries: map<string, DocEntry<M>>, negative: map<string, Negative>)
  {
    forall k | k != h ::
      && (k in entries <==> k in was) && (k in was ==> entries[k] == was[k])
      && (k in negative <==> k in wasNot) && (k in wasNot ==> negative[k] == wasNot[k])
  }

  /** What a load of h at the given moment answers and leaves in the two memories. */
  ghost predicate Lands<M>(ttl: int, negativeTTL: int, h: string, url: string, at: int, f: Fetch<M>, r: Answer<M>,
                           was: map<string, DocEntry<M>>, wasNot: map<string, Negative>,
                           entries: map<string, DocEntry<M>>, negative: map<string, Negative>)
  {
    && OthersKept(h, was, wasNot, entries, negative)
    && (f.Got? && f.status == 404 ==>
          r == NoDocument(url) && h !in entries && h in negative && negative[h] == Negative(at + negativeTTL, url))
    && (f.Failed? || (f.status != 404 && !(200 <= f.status < 300)) ==>
          r == FetchError && entries == was && negative == wasNot)
    && (f.Got? && 200 <= f.status < 300 && f.parsed.None? ==> r == ParseError && entries == was && negative == wasNot)
    && (f.Got? && 200 <= f.status < 300 && f.parsed.Some? ==>
          && r == Doc(f.parsed.value) && h !in negative && h in entries && entries[h].doc == f.parsed.value
          && (f.cacheControl == "" ==> entries[h].expiresAt == at + ttl)
          && (forall n | 0 <= n && n * SECOND < TWO63 && n * SECOND < ttl && f.cacheControl == "max-age=" + Itoa(n) ::
                entries[h].expiresAt == at + n * SECOND))
  }

  /** The log determines both memories. */
  lemma SameMemory<M>(log: seq<Event<M>>, was: map<string, DocEntry<M>>, wasNot: map<string, Negative>,
                      entries: map<string, DocEntry<M>>, negative: map<string, Negative>)
    requires Remembers(log, was, wasNot) && Remembers(log, entries, negative)
    ensures entries == was && negative == wasNot
  {
    hide Last;
    forall h
      ensures (h in entries <==> h in was) && (h in was ==> entries[h] == was[h])
      ensures (h in negative <==> h in wasNot) && (h in wasNot ==> negative[h] == wasNot[h])
    {
      assert RemembersAt(log, was, wasNot, h) && RemembersAt(log, entries, negative, h);
    }
  }

  /** One more event changes what is remembered of its host only. */
  lemma MemoryAfter<M>(log: seq<Event<M>>, e: Event<M>, was: map<string, DocEntry<M>>, wasNot: map<string, Negative>,
                       entries: map<string, DocEntry<M>>, negative: map<string, Negative>)
    requires Remembers(log, was, wasNot) && Remembers(log + [e], entries, negative)
    ensures OthersKept(e.host, was, wasNot, entries, negative) && RemembersAt([e], entries, negative, e.host)
  {
    var log' := log + [e];
    assert log'[..|log|] == log && [e][0] == e;
    assert RemembersAt(log', entries, negative, e.host) && Last(log', e.host) == Some(e) == Last([e], e.host);
    forall k | k != e.host
      ensures (k in entries <==> k in was) && (k in was ==> entries[k] == was[k])
      ensures (k in negative <==> k in wasNot) && (k in wasNot ==> negative[k] == wasNot[k])
    {
      assert Last(log', k) == Last(log, k);
      assert RemembersAt(log, was, wasNot, k) && RemembersAt(log', entries, negative, k);
    }
  }

  /** What the log gained is what the memories show. */
  lemma Landed<M>(ttl: int, negativeTTL: int, h: string, url: string, at: int, f: Fetch<M>, log: seq<Event<M>>,
                  was: map<string, DocEntry<M>>, wasNot: map<string, Negative>,
                  entries: map<string, DocEntry<M>>, negative: map<string, Negative>)
    requires Remembers(log, was, wasNot)
    requires Remembers(log + AfterLoad(ttl, negativeTTL, Some(url), true, h, at, f).1, entries, negative)
    ensures Lands(ttl, negativeTTL, h, url, at, f, AfterLoad(ttl, negativeTTL, Some(url), true, h, at, f).0,
                  was, wasNot, entries, negative)
  {
    LoadKeeps(ttl, negativeTTL, url, h, at, f);
    var more := AfterLoad(ttl, negativeTTL, Some(url), true, h, at, f).1;
    hide AfterLoad, Remembers, Itoa;
    if more == [] {
      assert log + more == log;
      SameMemory(log, was, wasNot, entries, negative);
    } else {
      assert more == [more[0]];
      MemoryAfter(log, more[0], was, wasNot, entries, negative);
    }
  }

  /******* The cache *******/

  class Cache<M(==)> {
    const ttl: int
    const negativeTTL: int
    const manifestURL: string -> Option<string>
    const hasClient: bool
    var entries: map<string, DocEntry<M>>
    var negative: map<string, Negative>
    ghost var log: seq<Event<M>>

    ghost predicate Valid()
      reads this
    {
      Remembers(log, entries, negative) && Bounded(log, ttl, negativeTTL)
    }

    constructor (ttl: int, negativeTTL: int, manifestURL: string -> Option<string>, hasClient: bool)
      ensures Valid() && log == [] && this.manifestURL == manifestURL && this.hasClient == hasClient
      ensures this.ttl == (if ttl <= 0 then 3600 * SECOND else ttl)
      ensures this.negativeTTL == (if negativeTTL <= 0 then 300 * SECOND else negativeTTL)
    {
      this.ttl := if ttl <= 0 then 3600 * SECOND else ttl;
      this.negativeTTL := if negativeTTL <= 0 then 300 * SECOND else negativeTTL;
      this.manifestURL, this.hasClient := manifestURL, hasClient;
      entries, negative, log := map[], map[], [];
    }

    method StoreGet(h: string, now: int) returns (r: Option<M>)
      ensures r == if h in entries && now < entries[h].expiresAt then Some(entries[h].doc) else None
    {
      if h !in entries || !(now < entries[h].expiresAt) {
        return None;
      }
      return Some(entries[h].doc);
    }

    method ReadNegative(h: string, now: int) returns (r: Option<string>)
      ensures r == if h in negative && now < negative[h].until then Some(negative[h].url) else None
    {
      if h !in negative || !(now < negative[h].until) {
        return None;
      }
      return Some(negative[h].url);
    }

    method StorePositive(h: string, m: M, now: int, life: int)
      requires Valid() && life <= ttl
      modifies this
      ensures Valid() && log == old(log) + [Stored(h, m, now, now + life)]
    {
      entries := entries[h := DocEntry(m, now + life)];
      negative := negative - {h};
      LogGrows(log, Stored(h, m, now, now + life), old(entries), old(negative), entries, negative);
      log := log + [Stored(h, m, now, now + life)];
    }

    method StoreNegative(h: string, url: string, now: int)
      requires Valid()
      modifies this
      ensures Valid() && log == old(log) + [Missed(h, url, now, now + negativeTTL)]
    {
      negative := negative[h := Negative(now + negativeTTL, url)];
      entries := entries - {h};
      LogGrows(log, Missed(h, url, now, now + negativeTTL), old(entries), old(negative), entries, negative);
      log := log + [Missed(h, url, now, now + negativeTTL)];
    }

    method Load(h: string, now: int, f: Fetch<M>) returns (r: Answer<M>)
      requires Valid()
      modifies this
      ensures Valid()
      ensures var (answer, more) := AfterLoad(ttl, negativeTTL, manifestURL(h), hasClient, h, now, f);
              r == answer && log == old(log) + more
      ensures hasClient && manifestURL(h).Some? ==>
                Lands(ttl, negativeTTL, h, manifestURL(h).value, now, f, r, old(entries), old(negative), entries, negative)
      ensures !hasClient || manifestURL(h).None? ==> entries == old(entries) && negative == old(negative)
    {
      hide Remembers, Bounded, Lifetime, Itoa;
      if !hasClient {
        return NoClient;
      }
      var url := manifestURL(h);
      if url.None? {
        return BadURL;
      }
      if f.Failed? {
        return FetchError;
      }
      if f.status == 404 {
        StoreNegative(h, url.value, now);
        Landed(ttl, negativeTTL, h, url.value, now, f, old(log), old(entries), old(negative), entries, negative);
        return NoDocument(url.value);
      }
      if f.status < 200 || f.status >= 300 {
        return FetchError;
      }
      if f.parsed.None? {
        return ParseError;
      }
      var life := TtlFrom(ttl, f.cacheControl);
      StorePositive(h, f.parsed.value, now, life);
      Landed(ttl, negativeTTL, h, url.value, now, f, old(log), old(entries), old(negative), entries, negative);
      return Doc(f.parsed.value);
    }

    /** The flight re-checks both memories before it loads. */
    method Single(h: string, t: Times, f: Fetch<M>) returns (r: Answer<M>)
      requires Valid()
      modifies this
      ensures Valid()
      ensures var hit := Recall(old(log), h, t.getAgain, t.negAgain);
              var (answer, more) := AfterLoad(ttl, negativeTTL, manifestURL(h), hasClient, h, t.stored, f);
              if hit.Some? then r == hit.value && log == old(log) else r == answer && log == old(log) + more
    {
      hide Bounded, AfterLoad;
      assert RemembersAt(log, entries, negative, h);
      var m := StoreGet(h, t.getAgain);
      if m.Some? {
        return Doc(m.value);
      }
      var url := ReadNegative(h, t.negAgain);
      if url.Some? {
        return NoDocument(url.value);
      }
      r := Load(h, t.stored, f);
    }

    /** A hit answers from memory and changes nothing; a miss is one load. */
    method Get(host: string, t: Times, f: Fetch<M>) returns (r: Answer<M>)
      requires Valid() && Ordered(t)
      modifies this
      ensures Valid()
      ensures var h := Host(host);
              var hit := Recall(old(log), h, t.get, t.neg);
              var (answer, more) := AfterLoad(ttl, negativeTTL, manifestURL(h), hasClient, h, t.stored, f);
              if h == "" then r == InvalidHost && log == old(log)
              else if hit.Some? then r == hit.value && log == old(log)
              else r == answer && log == old(log) + more
      ensures var h := Host(host);
              h != "" && h in old(entries) && t.get < old(entries[h].expiresAt) ==>
                r == Doc(old(entries[h].doc)) && entries == old(entries) && negative == old(negative)
      ensures var h := Host(host);
              h != "" && h in old(negative) && t.neg < old(negative[h].until) ==>
                r == NoDocument(old(negative[h].url)) && entries == old(entries) && negative == old(negative)
      ensures var h := Host(host);
              h != "" && Lapsed(old(entries), old(negative), h, t) && hasClient && manifestURL(h).Some? ==>
                Lands(ttl, negativeTTL, h, manifestURL(h).value, t.stored, f, r, old(entries), old(negative), entries, negative)
    {
      hide Bounded, AfterLoad, Host;
      var h := Host(host);
      if h == "" {
        return InvalidHost;
      }
      assert RemembersAt(log, entries, negative, h);
      var m := StoreGet(h, t.get);
      if m.Some? {
        return Doc(m.value);
      }
      var url := ReadNegative(h, t.neg);
      if url.Some? {
        return NoDocument(url.value);
      }
      r := Single(h, t, f);
      if hasClient && manifestURL(h).Some? {
        Landed(ttl, negativeTTL, h, manifestURL(h).value, t.stored, f, old(log), old(entries), old(negative), entries, negative);
      }
    }

    /** A refresh forgets the host, then loads. */
    method Refresh(host: string, t: Times, f: Fetch<M>) returns (r: Answer<M>)
      requires Valid()
      modifies this
      ensures Valid()
      ensures var h := Host(host);
              var (answer, more) := AfterLoad(ttl, negativeTTL, manifestURL(h), hasClient, h, t.stored, f);
              if h == "" then r == InvalidHost && log == old(log)
              else r == answer && log == old(log) + [Refreshed(h)] + more
    {
      hide AfterLoad, Host;
      var h := Host(host);
      if h == "" {
        return InvalidHost;
      }
      entries := entries - {h};
      negative := negative - {h};
      LogGrows(log, Refreshed(h), old(entries), old(negative), entries, negative);
      log := log + [Refreshed(h)];
      assert Recall(log, h, t.getAgain, t.negAgain) == None;
      hide Remembers, Recall;
      r := Single(h, t, f);
    }
  }

  /** Two lookups of a host nothing good is remembered of. A document that stated n
      seconds is the second answer, whatever the origin says by then, exactly while the
      second reading is before the n seconds are over; then the origin is asked again. */
  method GetWithinMaxAge<M(==)>(c: Cache<M>, host: string, t: Times, f: Fetch<M>, n: nat, t': Times, f': Fetch<M>)
    returns (first: Answer<M>, second: Answer<M>)
    requires c.Valid() && Ordered(t) && Ordered(t') && t.stored <= t'.get
    requires Host(host) != "" && c.hasClient && c.manifestURL(Host(host)).Some?
    requires Lapsed(c.entries, c.negative, Host(host), t)
    requires f.Got? && 200 <= f.status < 300 && f.parsed.Some?
    requires f.cacheControl == "max-age=" + Itoa(n) && n * SECOND < c.ttl && n * SECOND < TWO63
    modifies c
    ensures c.Valid() && first == Doc(f.parsed.value)
    ensures t'.get < t.stored + n * SECOND ==> second == Doc(f.parsed.value)
    ensures t'.get >= t.stored + n * SECOND && f'.Failed? ==> second == FetchError
    ensures t'.get >= t.stored + n * SECOND && f'.Got? && f'.status == 404 ==> second == NoDocument(c.manifestURL(Host(host)).value)
    ensures t'.get >= t.stored + n * SECOND && f'.Got? && f'.status == 200 && f'.parsed.Some? ==> second == Doc(f'.parsed.value)
  {
    hide Host, Itoa, Remembers, Bounded, AfterLoad, Recall;
    first := c.Get(host, t, f);
    second := c.Get(host, t', f');
  }

  /** After a 404 the second lookup answers that there is no document until the
      negative lifetime is over; then the origin is asked again. */
  method GetAfterNotFound<M(==)>(c: Cache<M>, host: string, t: Times, f: Fetch<M>, t': Times, f': Fetch<M>)
    returns (first: Answer<M>, second: Answer<M>)
    requires c.Valid() && Ordered(t) && Ordered(t') && t.stored <= t'.get
    requires Host(host) != "" && c.hasClient && c.manifestURL(Host(host)).Some?
    requires Lapsed(c.entries, c.negative, Host(host), t)
    requires f.Got? && f.status == 404
    modifies c
    ensures c.Valid() && first == NoDocument(c.manifestURL(Host(host)).value)
    ensures t'.neg < t.stored + c.negativeTTL ==> second == first
    ensures t'.neg >= t.stored + c.negativeTTL && f'.Failed? ==> second == FetchError
    ensures t'.neg >= t.stored + c.negativeTTL && f'.Got? && f'.status == 200 && f'.parsed.Some? ==>
              second == Doc(f'.parsed.value)
  {
    hide Host, Itoa, Remembers, Bounded, AfterLoad, Recall;
    first := c.Get(host, t, f);
    second := c.Get(host, t', f');
  }

  /** A lookup that got no document and no 404 leaves both memories as they were, so
      the next one asks the origin again. */
  method GetAfterFailure<M(==)>(c: Cache<M>, host: string, t: Times, f: Fetch<M>, t': Times, f': Fetch<M>)
    returns (first: Answer<M>, second: Answer<M>)
    requires c.Valid() && Ordered(t) && Ordered(t') && t.stored <= t'.get
    requires Host(host) != "" && c.hasClient && c.manifestURL(Host(host)).Some?
    requires Lapsed(c.entries, c.negative, Host(host), t)
    requires f.Failed? || (f.status != 404 && !(200 <= f.status < 300)) || (200 <= f.status < 300 && f.parsed.None?)
    modifies c
    ensures c.Valid() && (first == FetchError || first == ParseError)
    ensures f'.Failed? ==> second == FetchError && c.entries == old(c.entries) && c.negative == old(c.negative)
    ensures f'.Got? && f'.status == 404 ==> second == NoDocument(c.manifestURL(Host(host)).value)
    ensures f'.Got? && f'.status == 200 && f'.parsed.Some? ==> second == Doc(f'.parsed.value)
  {
    hide Host, Itoa, Remembers, Bounded, AfterLoad, Recall;
    first := c.Get(host, t, f);
    second := c.Get(host, t', f');
  }

  /** A refresh asks the origin whatever is remembered, and what it brings is what the
      next lookup finds. */
  method RefreshThenGet<M(==)>(c: Cache<M>, host: string, t: Times, f: Fetch<M>, n: nat, t': Times, f': Fetch<M>)
    returns (first: Answer<M>, second: Answer<M>)
    requires c.Valid() && Ordered(t) && Ordered(t') && t.stored <= t'.get
    requires Host(host) != "" && c.hasClient && c.manifestURL(Host(host)).Some?
    requires f.Got? && 200 <= f.status < 300 && f.parsed.Some?
    requires f.cacheControl == "max-age=" + Itoa(n) && n * SECOND < c.ttl && n * SECOND < TWO63
    modifies c
    ensures c.Valid() && first == Doc(f.parsed.value)
    ensures t'.get < t.stored + n * SECOND ==> second == Doc(f.parsed.value)
  {
    hide Host, Itoa, Bounded, AfterLoad;
    var h := Host(host);
    LoadKeeps(c.ttl, c.negativeTTL, c.manifestURL(h).value, h, t.stored, f);
    first := c.Refresh(host, t, f);
    assert RemembersAt(c.log, c.entries, c.negative, h);
    second := c.Get(host, t', f');
  }

  /** Between operations no host is remembered both ways. */
  lemma NeverBoth<M>(log: seq<Event<M>>, entries: map<string, DocEntry<M>>, negative: map<string, Negative>)
    requires Remembers(log, entries, negative)
    ensures entries.Keys !! negative.Keys
  {
    forall h | h in entries
      ensures h !in negative
    {
      assert RemembersAt(log, entries, negative, h);
    }
  }
}

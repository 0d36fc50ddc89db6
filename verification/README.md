# RAMP reference implementation: a verified model

A Dafny 4.11 model of the RAMP agent, broker and exchange reference
implementation (Go), with proofs about four of its parts. Check all of it with
`dafny verify dfyconfig.toml`.

1. **Signed requests as one protocol.** `Text`, `Chain`, `Verifier`, `Acceptance`,
   `Signer`, `Commitment`, `ReplayStore`, `Interceptor`, `ReplayProtocol`, `Window`, `AtMostOnce`.
   A request carries a chain sig1..sigN in which every signature covers its
   predecessor. Signatures are symbolic: a key and the signature base, and the base
   holds the covered values, the parameters and the predecessor's bytes
   (dictionary members are section 2.1.2 of RFC 9421, which the code's comments cite
   as section 2.4). A component with parameters has the part of its field that the
   signing library reads, which is a parameter of the model. `ReplayProtocol` interleaves any number of requests, one clock
   reading, one look or one recording at a time, and starts only requests that some
   verifier reports. `AtMostOnce` adds the signer's
   compare-and-swap window and gives the exact replay window that makes every honest
   signature count once.
2. **The broker's paid batch.** `Registry`, `BatchRelay`, `BatchTotal`. Envelope,
   verify and replay, whole-request admission, grouping, dispatch, merge and the
   per-currency total. The effects are a trace, so ordering is a statement about the
   trace. The code verifies before it admits (exchange_relay_batch.go:91-104); the
   comments at batch.go:22-24 and exchange_relay_batch.go:20-24 describe the opposite
   order, and the model follows the code.
3. **The broker's resolve.** `Routing`, `Discovery`, `Selection`, `Budget`, `Resolve`. Per-URL
   routes with memoised lookups, one query per exchange, Dedup and Rank, the
   tournament winner, and the check-then-record budget gate under concurrency.
4. **The manifest cache and the host canonicaliser.** `ManifestCache`,
   `CacheProtocol`, `HostName`.

Where the source changes state the model is a class or a method with a loop, proved
against a specification function or a predicate; the theorems are about those.

## Where the code falls short of what it says

Each has a lemma that exhibits it or says exactly when it happens; most have both.

- Required coverage is judged by component name, so a signature over one dictionary
  member of Authorization or Signature-Agent passes and does not commit to the rest of
  the field: `Commitment.PartOfFieldSigned`, `Commitment.FieldsCommittedIff`.
- A request refused as replayed can have recorded signatures, exactly when requests may
  take as long as the replay window from their first look to their last step:
  `ReplayProtocol.BurnAfterExpiry`, `ReplayProtocol.BurnsNothingIff`.
- One honest signature is accepted twice when the replay window is below 2T + 1 + D
  seconds: `AtMostOnce.TwiceBelowBound`, `AtMostOnce.AtMostOnceIff`.
- The "monotonic" window goes backwards under a stalled caller:
  `Window.StalledCallerGoesBack`, `Window.SwapDirection`.
- The label counter wraps past 2^63 - 1 signatures: `Signer.TooManyAppendsBreakGate`.
- The budget comparison overflows, and so does the conversion of a charge: a large
  quantity becomes a negative cost that is admitted and recorded as nothing:
  `Budget.AdmitsOverspend`, `Budget.ChargeWraps`, `Budget.ExactTotalBoundedIff`.
- k requests in flight pass the cap by (k-1)min(C, L): `Budget.CapReached`; and counters
  go negative outside a range of limits and costs: `Budget.CapIff`. A request with no
  limit is recorded unchecked: `Budget.UncappedRequestPasses`.
- An exchange's answer for another exchange's item, or for another's URL, is taken:
  `BatchRelay.RelayForeignAnswer`, `BatchRelay.OwnAnswerIff`,
  `Discovery.StrayOfferLands`, `Discovery.OffersFromHomeIff`.
- A group of a batch whose own sum does not print is missing from the sum of the group
  totals: `BatchTotal.UnprintedGroupLost`, `BatchTotal.TotalOfPartition`.
- A usable registry row under the empty domain routes only once:
  `Routing.MemoAgreesIff`.
- Rank after Dedup depends on map order when survivors tie:
  `Selection.RankDedupDeterministicIff`.
- A max-age that overflows a duration is stored already expired:
  `ManifestCache.HugeMaxAgeExpiresAtOnce`, `ManifestCache.MaxAgeHonouredIff`.
- Of several max-age directives the first below the limit is taken, not the shortest:
  `ManifestCache.FirstNotShortest`, `ManifestCache.ShortestHonouredIff`.
- A refresh can be followed by a document fetched before it:
  `CacheProtocol.RefreshIsFreshIff`.
- `[1.2.3.4]` and `[1.2.3.4]:443` are two identities: `HostName.BracketedQuadSplits`,
  `HostName.ImpliedPortFoldsIff`.

## Model

| member | source | states |
|---|---|---|
| Text.AtoiItoa | internal/httpsig/signer.go:288-309 | reading back a printed number gives the number, exactly on the 64-bit range; the label print/parse round trip rests on it |
| Chain.SharedSignature | internal/httpsig/verifier.go:223-236 | if any two linked chains share one signature, it stands at the same position in both and everything before it is equal |
| Verifier.ChainLink | internal/httpsig/verifier.go:262-270 | counts the covered predecessor links and reports the key of the last |
| Verifier.EnforceSignatureChain | internal/httpsig/verifier.go:237-257 | passes exactly when labels are sig1..sigN in order, the first covers no signature and each later one covers exactly its predecessor |
| Verifier.EnforceRequiredComponents | internal/httpsig/verifier.go:138-149 | passes exactly when every required component is covered |
| Verifier.VerifyMultisigRequest | internal/httpsig/verifier.go:188-221 | the loop computes the specified verdict: hop bound, chain gate, then each signature at its own clock reading, first failure wins; `Acceptance.AcceptedIff` states that verdict in plain terms |
| Acceptance.AcceptedIff | internal/httpsig/verifier.go:188-221 | a request is accepted exactly when both headers parse, its length is within the bound, the i-th label is the i-th sigN with the one link it should have, and each signature is ed25519, covers every required component (and a stated entitlement), has both times set with the reading not past expires nor more than the skew before created, matches the body's digest, and holds its key's signature over the base |
| Acceptance.RequestRefusedFor | internal/httpsig/verifier.go:188-257 | otherwise which of the request's errors is reported: absent or malformed headers, length, chain, then the error of the first bad signature |
| Acceptance.RefusedFor | internal/httpsig/verifier.go:286-364 | which error one bad signature gets, the checks in the code's order |
| Verifier.EachVerified | internal/httpsig/verifier.go:206-221 | the list is accepted exactly when each signature is, and reports each one's own result |
| Verifier.CommittedByLinks | internal/httpsig/verifier.go:262-270 | the signatures a base commits to are exactly the dictionary members its link keys name, in order |
| Verifier.AcceptedIsLinked | internal/httpsig/verifier.go:188-257 | every accepted request reports a non-empty linked chain with labels sig1..sigN, each signature verified on its own |
| Commitment.ChainCommitment | internal/httpsig/verifier.go:188-270 | two accepted requests with equal last signatures carry the same chain: same length, signatures, keys, covered sets and parameters, over equal covered values, and equal in every field some signature covers whole |
| Commitment.FieldsCommittedIff | internal/httpsig/verifier.go:138-166 | the last signature commits to the required components and the entitlement exactly when each of them that every signature covers is covered without parameters by some signature |
| Commitment.AppendedFieldsCommitted | internal/httpsig/signer.go:67-89 | a chain the signer builds always does, however the library reads parts of fields |
| Commitment.PartOfFieldSigned | internal/httpsig/parse.go:95-116 | two requests with Authorization a=1, b=2 and a=1, b=3 are accepted with one and the same report |
| Commitment.DictionaryReadsParts | internal/httpsig/parse.go:95-116 | reading one member of an unquoted dictionary has the properties the exact law asks of the library |
| Commitment.BodyCommitment | internal/httpsig/httpsig.go:145-159 | and, with an injective digest that its one dictionary member determines, the same body, however the digest header is covered |
| Verifier.RearrangedChain | internal/httpsig/verifier.go:237-257 | any list drawn from an accepted chain, reordered, deleted or repeated, is accepted exactly when it is a non-empty prefix that keeps whatever its signatures cover of Signature-Input itself |
| Verifier.PrefixAccepted | internal/httpsig/verifier.go:188-221 | every such prefix of an accepted chain is accepted |
| Signer.MaxSignatureLabelN | internal/httpsig/signer.go:288-309 | the largest label number present: an upper bound that is attained, or 0 |
| Signer.CoveredShape | internal/httpsig/signer.go:67-89 | the covered set of the next signature links exactly its predecessor and meets both coverage rules |
| Signer.AppendsBuild | internal/httpsig/signer.go:251-278 | fewer than 2^63 appends to an unsigned request succeed and build the n-hop chain |
| Signer.SigningKeepsFields | internal/httpsig/signer.go:251-278 | any number of appends keeps the body and every non-empty field, and adds only the digest of the body and empty Authorization and Signature-Agent |
| Signer.AppendedChainPasses | internal/httpsig/signer.go:251-309 | n appends by any keys pass the chain gate, the required coverage and the entitlement coverage |
| Signer.AppendedChainVerifies | internal/httpsig/verifier.go:188-221 | a chain of n trusted hops is accepted exactly when the hop bound is off or at least n, and otherwise refused for its length |
| Signer.ChainReported | internal/httpsig/verifier.go:188-221 | for any hops stamped in the first second there are a request and a verifier that reports exactly them |
| Signer.TooManyAppendsBreakGate | internal/httpsig/signer.go:262-271 | from 2^63 appends on the label counter wraps and no request that comes out passes the gate: the bound above is exact |
| ReplayStore.AddObserved | internal/httpsig/replay.go:95-125 | SeenOrAdd changes later observations of one key only: seen from now until ttl later and not at that instant; sweeping is invisible |
| ReplayStore.MemoryReplayStore.SeenOrAdd | internal/httpsig/replay.go:95-107 | reports whether the key was live, and leaves the swept map with the key recorded if it was not |
| ReplayStore.MemoryReplayStore.SweepLocked | internal/httpsig/replay.go:119-125 | keeps exactly the unexpired entries |
| Interceptor.PrefixLeavesRestUnseen | internal/httpsig/interceptor.go:205-236 | recording a prefix of a chain cannot make a later signature of it look seen |
| Interceptor.VerifyAndCommit | internal/httpsig/interceptor.go:205-236 | alone, a request is accepted exactly when it verifies and none of its signatures is live; then from the last recording on, a pair is live exactly when it was before or is one of the request's signatures inside ttl of its recording; a refused one leaves the store unchanged |
| Interceptor.SecondIsReplayed | internal/httpsig/interceptor.go:205-236 | the same request again, first looked at inside ttl of its first recording, is refused as replayed whatever verifier accepts it |
| Interceptor.CommitAllObserved | internal/httpsig/interceptor.go:224-234 | what recording a list of signatures changes about later observations |
| ReplayProtocol.VerifiedCanRun | internal/httpsig/interceptor.go:205-216 | whatever the verifier accepts is a possible request of the interleaved machine |
| ReplayProtocol.RunKeepsInv | internal/httpsig/interceptor.go:217-234 | the protocol invariant holds in every interleaving of any number of requests, sweeps included |
| ReplayProtocol.AcceptedPairsSpacedApart | internal/httpsig/interceptor.go:217-234 | two accepted requests share a (key id, signature) pair only at equal positions and with recordings at least ttl apart; no request holds a pair twice |
| ReplayProtocol.BurnNeedsExpiry | internal/httpsig/interceptor.go:217-234 | a request refused as replayed after recording something was overtaken on its first signature, ttl or more away |
| ReplayProtocol.BurnTakesTtl | internal/httpsig/interceptor.go:212-234 | a request that burned a signature, or the one that overtook it, spent the replay window or longer from first look to last step |
| ReplayProtocol.BurnsNothingIff | internal/httpsig/interceptor.go:212-234 | a rejected request burns nothing in any run whose requests each take at most E from first look to last step, exactly when E is below the replay window |
| ReplayProtocol.RejectedAddsNothing | internal/httpsig/interceptor.go:205-236 | while nothing recorded has expired, a request refused as replayed has added nothing |
| ReplayProtocol.BurnAfterExpiry | internal/httpsig/interceptor.go:205-236 | a two-hop request that a verifier reports is refused as replayed and leaves a recorded signature behind, exactly the replay window after its first look |
| Window.SwapDirection | internal/ramphttpsig/transport.go:125-145 | a swap moves the cell back exactly when the value replaced is past the caller's ceiling, repeats it exactly at the ceiling, and always lands between T and 2T after the reading |
| Window.MonotonicWindow.Stamp | internal/ramphttpsig/transport.go:125-145 | under any interference the cutoff succeeds the value really replaced, at the call's own clock reading |
| Window.RunHistory | internal/ramphttpsig/transport.go:125-145 | in every interleaving the cell is the last cutoff swapped in and each swap follows the one before |
| Window.LifetimeBounded | internal/ramphttpsig/transport.go:125-145 | in every interleaving T <= expires - created <= 2T |
| Window.LeakyBucket | internal/ramphttpsig/transport.go:125-145 | in clock order the cutoffs are those of a bucket of depth T that drains one per second |
| Window.CutoffsInOrder | internal/ramphttpsig/transport.go:125-145 | in clock order cutoffs never decrease, and two are equal exactly when both fall in one second the earlier had saturated |
| Window.BurstAfterIdle | internal/ramphttpsig/transport.go:125-145 | in a burst after idle exactly the first T+1 cutoffs are distinct |
| Window.StalledCallerGoesBack | internal/ramphttpsig/transport.go:125-145 | out of clock order a later swap can store an earlier cutoff |
| AtMostOnce.RunKeepsInv | internal/httpsig/verifier.go:168-183 | signer, clock and replay machine together keep every honest signature's freshness window and the replay invariant |
| AtMostOnce.HonestAcceptedOnce | internal/ramphttpsig/transport.go:125-145 | in every run a signature stamped by the window is accepted at most once when the replay window is at least 2T + 1 + D seconds |
| AtMostOnce.TwiceBelowBound | internal/httpsig/verifier.go:168-183 | for every smaller window there is a run that accepts one honest, verifier-reported signature twice |
| AtMostOnce.AtMostOnceIff | internal/httpsig/interceptor.go:205-236 | so the bound is exact, both ways, over all reachable states |
| Registry.CanonicalEndpoint | src/broker/internal/repo/exchange.go:174-176 | the input without its trailing slashes and nothing else removed |
| BatchTotal.Compute | internal/rampcost/rampcost.go:33-63 | present exactly when every amount parses, all costed items share one currency and the sum prints, and then the exact sum; each failure exactly in its own case |
| BatchTotal.ComputeOneMore | internal/rampcost/rampcost.go:33-63 | one item more: no cost or currency changes nothing, the same currency adds its amount, another currency leaves no total, an unparsable amount is an error |
| BatchTotal.TotalUnique | internal/rampcost/rampcost.go:33-63 | the four cases exclude each other |
| BatchTotal.TotalPermuted | internal/rampcost/rampcost.go:33-63 | the outcome does not depend on the order of the items |
| BatchTotal.TotalOfPartition | internal/rampcost/rampcost.go:33-63 | for any partition the total is the sum of the present group totals plus the unprintable groups, so the present ones suffice exactly when the unprintable ones add to zero |
| BatchTotal.UnprintedGroupLost | internal/rampcost/rampcost.go:52-62 | a refund and a charge whose total prints while the refund alone does not |
| BatchRelay.AdmittedIff | src/broker/internal/relay/batch.go:147-199 | an exchange is admitted exactly when registered, healthy, VERIFIED or PREFERRED, and its own manifest gives an endpoint |
| BatchRelay.RefusedFor | src/broker/internal/relay/batch.go:147-260 | the kind of each refusal, checks in order, and that an admitted exchange is reached at its advertised address without trailing slashes |
| BatchRelay.FirstRefused | src/broker/internal/relay/batch.go:111-120 | a request is refused for the first item whose exchange is, with that refusal's kind |
| BatchRelay.PaidWhereAdvertised | src/broker/internal/relay/batch.go:147-174 | every payment goes to the address the exchange's own manifest advertises, trailing slashes removed, for a healthy VERIFIED or PREFERRED row, with that exchange's items only; the registry's endpoint column plays no part |
| BatchRelay.Relay.VerifyAndGuardReplay | src/broker/internal/relay/relay.go:282-310 | only a verified signature is recorded, once; the outcome, the trace and the store in each case |
| BatchRelay.Relay.ResolveGroupEndpoint | src/broker/internal/relay/batch.go:147-174 | the admission verdict, with the registry read before any fetch; `BatchRelay.RefusedFor` and `BatchRelay.PaidWhereAdvertised` state it in plain terms |
| BatchRelay.Relay.ResolveGroups | src/broker/internal/relay/batch.go:93-120 | all groups or the first refusal, reading and fetching in first-seen order up to it |
| BatchRelay.Relay.FanOut | src/broker/internal/relay/batch.go:275-315 | one execute per group in order, the merged items, the first non-empty agent hash and the batch total |
| BatchRelay.Relay.ServeBatch | src/broker/internal/transport/exchange_relay_batch.go:25-107 | nothing happens for a bad envelope; otherwise exactly the specified trace and store; relayed exactly when guarded and admitted; each rejection's kind by its cause: empty, unverified or replayed, store fault, unnamed exchange, or the first refused exchange |
| BatchRelay.DuplicateScan | src/broker/internal/transport/exchange_relay_batch.go:63-74 | refuses exactly the batches with a repeated offer id, at the first repetition |
| BatchRelay.GroupByExchange | src/broker/internal/relay/batch.go:96-109 | first-seen order, and per exchange its items in request order; fails exactly when an item names none |
| BatchRelay.CollectGroupDenials | src/broker/internal/relay/batch.go:331-338 | every item of a failed group is denied, other entries stay |
| BatchRelay.CollectAnswer | src/broker/internal/relay/batch.go:296-298 | every answered item replaces what was held under its id |
| BatchRelay.MergeResults | src/broker/internal/relay/batch.go:345-364 | one result per requested item, in request order, denied when none is held |
| BatchRelay.OrderFacts | src/broker/internal/relay/batch.go:96-109 | the group order lists each named exchange once and no other |
| BatchRelay.OrderFirstSeen | src/broker/internal/relay/batch.go:96-109 | the order of any prefix of the items is a prefix of the order: exchanges stand where first seen |
| BatchRelay.ResolvedIff | src/broker/internal/relay/batch.go:93-120 | the whole request is admitted exactly when every item names an admitted exchange; the groups are then one per exchange with its own items |
| BatchRelay.GuardComesFirst | src/broker/internal/transport/exchange_relay_batch.go:91-104 | in every run no registry read, fetch or payment precedes a successful verify and a new replay entry, and a fetch directly follows a passing row |
| BatchRelay.AllOrNothingDispatch | src/broker/internal/relay/batch.go:111-120 | payments go to no exchange, or to every distinct exchange exactly once in order, exactly when guarded and all admitted |
| BatchRelay.SubRequestIsFilter | src/broker/internal/relay/batch.go:275-295 | a sub-request is the order-preserving filter: increasing positions, exactly those of its exchange |
| BatchRelay.SubRequestsPartition | src/broker/internal/relay/batch.go:96-109 | the sub-requests together hold every item exactly once |
| BatchRelay.MergedByPosition | src/broker/internal/relay/batch.go:345-364 | the response has the request's length and id order whatever is answered; each item is the last answer under its id, or a denial |
| BatchRelay.HashIsFirst | src/broker/internal/relay/batch.go:275-315 | the agent hash is the first non-empty one answered, in group order |
| BatchRelay.ItemIsOwnAnswer | src/broker/internal/relay/batch.go:275-364 | with distinct ids and exchanges that answer only for theirs, each item is its own exchange's answer, or CONTENT_UNAVAILABLE when that call failed or left it out |
| BatchRelay.OwnAnswerIff | src/broker/internal/relay/batch.go:275-364 | in general an item is its own exchange's answer, or a denial, exactly when no other call has the last word under its id with something else |
| BatchRelay.ForeignAnswerWins | src/broker/internal/relay/batch.go:296-298 | without that assumption a verified, admitted request gets another exchange's answer in every response assembled for it |
| BatchRelay.RelayForeignAnswer | src/broker/internal/transport/exchange_relay_batch.go:91-107 | a relay that has seen nothing relays that request with the other exchange's answer |
| Routing.RouteScan.RegisteredHealthy | src/broker/internal/resolve/routing.go:126-172 | the memoised rule's answer; each domain read once; the transient flag is up exactly when some domain read was down, unreadable or unresolvable |
| Routing.RouteScan.ExchangeForURL | src/broker/internal/resolve/routing.go:93-114 | the first usable exchange the URL's manifest names, looking no further |
| Routing.MemoAgrees | src/broker/internal/resolve/routing.go:93-172 | with no usable exchange under the empty domain, for every URL list the memo changes no route, and the domains read are those the rule examines |
| Routing.MemoAgreesIff | src/broker/internal/resolve/routing.go:129-131 | the memo changes no route for any manifests exactly when the empty domain is not usable |
| Routing.RoutePlan.RouteURLTo | src/broker/internal/resolve/routing.go:222-229 | the plan's new state: the exchange registered on first sight, the URL appended to its list |
| Routing.BuildRoutePlan | src/broker/internal/resolve/routing.go:47-65 | every URL kept in order; the plan of the routes; any routed exactly when some exchange is planned |
| Routing.PlanIsRight | src/broker/internal/resolve/routing.go:47-65 | every routed exchange is planned once, with exactly the ordered sub-list of URLs routed to it |
| Routing.UsableIff | src/broker/internal/resolve/routing.go:126-172 | an exchange is usable exactly when registered, not BLOCKED, healthy and resolved, with its row as registered at the resolved endpoint |
| Routing.TransientIff | src/broker/internal/resolve/routing.go:126-172 | which declines may clear |
| Routing.RouteIsFirstUsable | src/broker/internal/resolve/routing.go:93-114 | a route is the first usable exchange named, and none exactly when none is usable |
| Routing.RoutedToIsFilter | src/broker/internal/resolve/routing.go:222-229 | an exchange's URL list is the order-preserving filter of the URLs routed to it |
| Routing.PlanFirstSeen | src/broker/internal/resolve/routing.go:222-229 | exchanges are queried in the order first routed to |
| Discovery.CollectGroups | src/broker/internal/resolve/discover.go:190-216 | for every URL the old candidates followed by the reply's verified offers for it, and its last stated absence |
| Discovery.Finalize | src/broker/internal/resolve/types.go:120-129 | the ranked deduplicated candidates without an absence, or no offer with the stated absence |
| Discovery.Assemble | src/broker/internal/resolve/routing.go:241-254 | exactly one group per requested URL, in order; not in the catalog when nothing was answered |
| Discovery.QueryAll | src/broker/internal/resolve/discover.go:92-105 | each planned exchange is asked once, in order, with its own sub-list; a signing failure stops, other failures are counted |
| Discovery.DiscoverByRoute | src/broker/internal/resolve/discover.go:85-108 | one group per position; the queries are exactly the plan's; the flags are up exactly when some examined domain may recover, and when every query failed |
| Discovery.LegsGoWhereResolved | src/broker/internal/resolve/discover.go:156-185 | each query goes to the endpoint its exchange's manifest resolved to, under the row as registered, with the URLs routed there, and nowhere when the domain cannot be named |
| Discovery.OffersCarryTheirRow | src/broker/internal/resolve/discover.go:239-246 | every offer found is verified and carries the domain, trust and priority of a live registered exchange and that exchange's resolved endpoint |
| Discovery.VerifiedOffersRepresented | src/broker/internal/resolve/types.go:120-129 | no verified offer for a requested URL is lost: its group holds one of the same identity that asks no more |
| Discovery.VerifiedIsFilter | src/broker/internal/resolve/discover.go:190-216 | a reply's candidates are its verified offers, in order, each once |
| Discovery.EmptyGroupSaysWhy | src/broker/internal/resolve/types.go:120-129 | a group without offers carries the stated absence, and NOT_IN_CATALOG when no exchange answered; one with offers carries none |
| Discovery.AbsenceIsLast | src/broker/internal/resolve/discover.go:190-216 | the stated absence is the last one stated for the URL |
| Discovery.OffersFromHomeIff | src/broker/internal/resolve/discover.go:190-216 | a URL's candidates are exactly its own exchange's verified offers for it if and only if no other exchange sent a verified offer for it |
| Discovery.EchoHasNoStray | src/broker/internal/resolve/discover.go:85-108 | exchanges that answer only for URLs they were sent bring none |
| Discovery.GroupsFromRoutes | src/broker/internal/resolve/discover.go:85-108 | then every offer in a URL's group was verified and came from an exchange that URL was routed to |
| Discovery.GroupsFromHome | src/broker/internal/resolve/discover.go:85-108 | with no usable exchange under the empty domain, that is the exchange the routing rule gives the URL, and a URL the rule routes nowhere has no offer |
| Discovery.StrayOfferLands | src/broker/internal/resolve/discover.go:194-215 | an offer another exchange sends for a URL is collected for it |
| Discovery.ReducedFacts | src/broker/internal/resolve/types.go:120-129 | deduplication and ranking invent no offer |
| Discovery.AnswersRanked | src/broker/internal/resolve/types.go:120-129 | every discovered group is ranked |
| Discovery.DiscoverWinner | src/broker/internal/resolve/types.go:131-151 | the groups answer the plan's queries, signing fails exactly when some query's does, and the winner is the head of the stable ranking of all the offers found |
| Selection.RankFacts | src/broker/internal/selection/selection.go:68-84 | the ranking is sorted and a permutation |
| Selection.RankStable | src/broker/internal/selection/selection.go:68-84 | tied candidates keep their order |
| Selection.RankIsTheStableSort | src/broker/internal/selection/selection.go:68-84 | a list is the ranking exactly when it is a stable sort by trust, charge, priority and offer id |
| Selection.RankOrder | src/broker/internal/selection/selection.go:68-127 | of any two ranked candidates, in any letter case, PREFERRED never follows VERIFIED, VERIFIED DISCOVERED, DISCOVERED an unknown level, nor that BLOCKED; at one level the earlier asks no more (unit cost when stated, else rate, else 0), at one price has no lower priority, then no later id |
| Selection.RankInPlace | src/broker/internal/selection/selection.go:68-84 | the in-place sort yields that ranking |
| Selection.RankIgnoresOrderIff | src/broker/internal/selection/selection.go:61-67 | the ranking of distinct candidates is independent of their order exactly when no two tie |
| Selection.BestIsFirstCheapest | src/broker/internal/selection/selection.go:41-53 | one candidate per identity: the first with the lowest charge |
| Selection.SameIdentityIff | src/broker/internal/selection/selection.go:137-159 | two offers are one identity exactly when the first name each carries, of URL, DOI, IPTC, hash, offer id, is of one kind and equal |
| Selection.DedupKeepsCheapest | src/broker/internal/selection/selection.go:41-59 | a candidate is dropped only for one of the same identity that asks no more |
| Selection.DedupOneEach | src/broker/internal/selection/selection.go:41-59 | no two survivors share an identity |
| Selection.Dedup | src/broker/internal/selection/selection.go:41-59 | a listing of those survivors, each once, in some order |
| Selection.RankDedupDeterministicIff | src/broker/internal/selection/selection.go:41-84 | ranking the survivors gives one list for every map iteration order exactly when no two survivors tie |
| Selection.DistinctIdsDeterministic | src/broker/internal/selection/selection.go:41-84 | distinct offer ids suffice |
| Selection.Winner | src/broker/internal/resolve/types.go:140-151 | the best of the heads is the first of the ranking of all offers together, ties included; no offer has higher trust, at its trust none asks less, at its price none has higher priority, then none has an earlier id |
| Selection.HeadsAndFlat | src/broker/internal/resolve/types.go:140-151 | the first best of the group heads is the first best of the concatenation |
| Selection.HeadBeatsAll | src/broker/internal/resolve/types.go:131-139 | no offer beats the winner and every offer before it is beaten by it |
| Budget.KeyInjective | src/broker/internal/budget/budget.go:158-160 | distinct agents and months never share a counter, whatever the agent id |
| Budget.AdmitsOverspend | src/broker/internal/resolve/resolve.go:305-322 | for every counter and charge, a charge past the limit is admitted exactly when the remaining budget is a non-negative 64-bit number and the projected sum kept to 64 bits is negative or within the limit |
| Budget.MemoryService.Record | src/broker/internal/budget/budget.go:148-156 | adds a positive cost to one counter, wrapping at 64 bits |
| Budget.Gate | src/broker/internal/resolve/resolve.go:139-166 | the check at one reading of the month and, only when it passes, the record at another |
| Budget.CapIff | src/broker/internal/resolve/resolve.go:139-166 | with at most k of an agent's requests between check and record, limits up to L and costs up to C, every counter stays between 0 and L + (k-1)min(C, L) in every interleaving exactly when that bound and L + C fit 64 bits |
| Budget.CapUnderConcurrency | src/broker/internal/budget/budget.go:134-156 | the sufficient half, over every run, months turning over included, and for a counter together with its pending charges |
| Budget.CapSequential | src/broker/internal/resolve/resolve.go:139-166 | one at a time the cap is never passed |
| Budget.CapReached | src/broker/internal/resolve/resolve.go:139-166 | within 64 bits the bound L + (k-1)min(C, L) is attained for every k |
| Budget.UncappedRequestPasses | src/broker/internal/resolve/resolve.go:305-322 | a request that states no limit carries a counter past any cap |
| Budget.ExactAgainstCounter | src/broker/internal/resolve/money.go:14-22 | while the limit and the largest charge fit 64 bits together, the counter stays within the limit and the exact total is ahead of it by less than one unit per admitted request |
| Budget.ExactTotalBoundedIff | src/broker/internal/resolve/resolve.go:418-424 | admitted one at a time, charges of up to M units always total less than the limit plus n units in the eighth place, exactly when the limit and M fit 64 bits together |
| Budget.ChargeWraps | src/broker/internal/resolve/money.go:20-22 | unit price 43 with quantity 2147483647 becomes a negative cost, is admitted under every limit, records nothing and breaks the bound |
| Resolve.ResolveOnce | src/broker/internal/resolve/resolve.go:112-175 | over the plan's own answers: signing fails exactly when some query's does, no offers exactly when the answers hold none, otherwise the winner of everything discovered is licensed exactly when the gate admits its charge, and only then is a counter changed, by exactly that charge; in range that is price times quantity (at least 1) in units of 1e-8 against what is left of the limit, and no agent or no limit always passes |
| Resolve.PricedIsCost | src/broker/internal/resolve/resolve.go:418-424 | the charge is the price asked times the quantity, 1 when it is below 1, truncated at the eighth place |
| Resolve.WinsBeatsAll | src/broker/internal/resolve/resolve.go:127-135 | no discovered offer beats the charged winner, and it beats every offer before it |
| ManifestCache.TtlFrom | internal/rampwellknown/cache.go:212-227 | the first directive asking for less than the limit, else the limit; never more |
| ManifestCache.MaxAgeHonouredIff | internal/rampwellknown/cache.go:212-227 | a lone max-age is honoured, capped, exactly when its seconds fit a duration or wrap to at least the limit |
| ManifestCache.ShortestHonouredIff | internal/rampwellknown/cache.go:212-227 | over any list of directives the lifetime is the shortest one asked for exactly when no directive undercuts the first that is below the limit |
| ManifestCache.FirstNotShortest | internal/rampwellknown/cache.go:213-225 | of max-age=5 and max-age=1 the first is taken |
| ManifestCache.HugeMaxAgeExpiresAtOnce | internal/rampwellknown/cache.go:221-223 | a max-age past that range gives a negative lifetime |
| ManifestCache.LastIsLast | internal/rampwellknown/cache.go:113-136 | what memory owes a host is the last load or refresh of that host in the log |
| ManifestCache.NeverBoth | internal/rampwellknown/cache.go:176-189 | between operations no host has both a positive and a negative entry |
| ManifestCache.Cache.constructor | internal/rampwellknown/cache.go:81-109 | starts empty, with the defaults for non-positive lifetimes |
| ManifestCache.Cache.StorePositive | internal/rampwellknown/cache.go:177-180 | the host's memory becomes that document alone, within the configured lifetime |
| ManifestCache.Cache.StoreNegative | internal/rampwellknown/cache.go:184-189 | the host's memory becomes that 404 alone |
| ManifestCache.Cache.Load | internal/rampwellknown/cache.go:149-174 | only a 404 and a parsed success change memory, and only the host's: the document until max-age or the limit, or the 404 until the negative lifetime; the answer in each case |
| ManifestCache.Cache.Single | internal/rampwellknown/docstore.go:65-77 | re-checks memory before loading |
| ManifestCache.Cache.Get | internal/rampwellknown/cache.go:113-125 | answers exactly what the last completed load since the last refresh stored, inside its lifetime, and changes nothing; otherwise one load, stated over the two memories as well as the log |
| ManifestCache.GetWithinMaxAge | internal/rampwellknown/cache.go:113-174 | two lookups: a document that stated n seconds, below the limit, answers the second exactly until n seconds after it was stored; then the origin is asked |
| ManifestCache.GetAfterNotFound | internal/rampwellknown/cache.go:113-174 | after a 404 the second lookup answers no document until the negative lifetime is over; then the origin is asked |
| ManifestCache.GetAfterFailure | internal/rampwellknown/cache.go:149-174 | any other status, a failed fetch or an unparsable body leaves both memories as they were, and the next lookup asks again |
| ManifestCache.HostIs | internal/rampwellknown/cache.go:113-125 | the key is the host without the spaces around it, letter case folded |
| ManifestCache.Cache.Refresh | internal/rampwellknown/cache.go:128-136 | forgets the host, then one load |
| ManifestCache.RefreshThenGet | internal/rampwellknown/cache.go:113-136 | a refresh asks the origin whatever is remembered, and the next lookup finds what it brought |
| CacheProtocol.RunKeepsInv | internal/rampwellknown/cache.go:128-189 | with the halves of stores and refreshes interleaved freely, both memories are filled only inside a store, and lifetimes stay bounded |
| CacheProtocol.NeverBoth | internal/rampwellknown/cache.go:176-189 | in every interleaving at most one memory is filled whenever no store is half done |
| CacheProtocol.MemoryIsLastStore | internal/rampwellknown/cache.go:128-189 | each memory is filled exactly when the last step to touch it was a load's store, with that load's content |
| CacheProtocol.RefreshIsFreshIff | internal/rampwellknown/cache.go:127-136 | after a refresh only later-fetched documents appear exactly when no load was waiting for the origin |
| HostName.Idempotent | internal/agentid/agentid.go:200-214 | canonicalising an accepted authority twice is the same as once |
| HostName.PortIdentityIff | internal/agentid/agentid.go:359-377 | two valid ports after the same text are accepted together and give one identity exactly when the numbers are equal or both are 80 or 443, leading zeros included |
| HostName.ImpliedPortFoldsIff | internal/agentid/agentid.go:329-338 | an implied port folds away except after a bracketed literal without a colon or with a root dot |
| HostName.BracketedQuadSplits | internal/agentid/agentid.go:329-338 | with a parser that knows one IPv4 address, [1.2.3.4] and [1.2.3.4]:443 are two identities |
| HostName.CaseFolds | internal/agentid/agentid.go:200-214 | ASCII case never distinguishes two identities, in any part of the authority |
| HostName.RootDotFolds | internal/agentid/agentid.go:200-214 | nor does the root dot of a name, with any port or none |
| HostName.CanonicalNameNormal | internal/agentid/agentid.go:226-244 | every canonical name is a fixed point that a port can follow |
| HostName.PortSplits | internal/agentid/agentid.go:329-338 | whether a port splits off depends on the name alone |
| HostName.HostNameChars | internal/agentid/agentid.go:381-396 | an accepted host name is lower-case ASCII host characters and inner dots |
| HostName.DottedNameIff | internal/agentid/agentid.go:381-396 | a lower-case dotted name whose last label is neither empty nor a number is its own canonical host exactly when every label is a non-empty run of a-z, 0-9, hyphen and underscore, and is refused otherwise |

## Left out

- Ed25519, SHA-256, base64 and structured-field parsing: signatures and digests are symbolic, and a parsed header is given as a list of members.
- Commitment.ChainCommitment: does not promise that the required fields agree, because coverage by name lets a signature read part of a field; `Commitment.FieldsCommittedIff` says when they do.
- How the signing library reads a component's parameters: a function of the model; the exact law asks of it that derived components have no parts, that header fields hold more than any parts of them, and that a trailing space is no part.
- netip and idna: taken as functions with the laws in `HostName.Libraries`; `Text.Lower` folds ASCII only, so case folding of other letters is left to the A-label mapping, and a trust level spelled with other letters that fold to ASCII ones is unknown here.
- Redis and Postgres backends: the memory stores are modelled; the SQL is not.
- HTTP handlers, error texts, logging, audit records, environment and wiring: plumbing; every refusal of the host canonicaliser is one value, as they share one sentinel.
- `EndpointAllowed` and the discover relay: one-branch rules over the same rows.
- The free-text broadcast query, `upstreamReason` and the scope flag: single assignments; the broadcast path yields no groups against a compliant exchange.
- The edge, the ledger views, the registry refresher and the deterministic clock: small branch-by-branch code.
- Window.MonotonicWindow.Stamp: does not model 64-bit overflow of unix seconds, which no clock reaches.
- Budget.Gate: the clock's month is a parameter, one reading for the check and one for the record.
- ManifestCache.Cache.Get: clock readings of one call are ordered, as Go's monotonic readings are; callers that overlap are in `CacheProtocol`.
- CacheProtocol.RunKeepsInv: one host, and loads may start whenever the flight is free, so it covers more runs than the program has.
- Signer.AppendsBuild: a refused append is only a refusal; the headers the program has set by then are not modelled.
- Resolve.ResolveOnce: starts from the probed manifests; finding and probing publisher domains is not part of this model.
- Discovery.DiscoverByRoute: an exchange's reply is a function of the exchange and its URLs, which is enough since each is asked once.

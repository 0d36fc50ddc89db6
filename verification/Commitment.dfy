/** What the last signature of an accepted chain commits to: the whole chain and
    every covered value. Coverage is judged by component name, so a component that
    reads part of a field is committed to that part only. */
module Commitment {
  import opened Text
  import opened Chain
  import opened Verifier
  import opened Signer

  const DIGEST := "content-digest"

  /** The two requests agree on everything the covered set names, as each
      verifier's library reads it. */
  predicate SameCovered(sel1: Select, r1: Request, sel2: Select, r2: Request, covered: seq<Component>) {
    forall i | 0 <= i < |covered| ::
      ComponentValue(sel1, r1, covered[i]).Some? &&
      ComponentValue(sel1, r1, covered[i]) == ComponentValue(sel2, r2, covered[i])
  }

  lemma SameBaseSameCovered(sel1: Select, r1: Request, c1: seq<Component>, sp1: SigParams,
                            sel2: Select, r2: Request, c2: seq<Component>, sp2: SigParams)
    requires BaseOf(sel1, r1, c1, sp1).Some? && BaseOf(sel1, r1, c1, sp1) == BaseOf(sel2, r2, c2, sp2)
    ensures c1 == c2 && sp1 == sp2 && SameCovered(sel1, r1, sel2, r2, c1)
  {
    hide ComponentValue;
    var l1, l2 := LinesOf(sel1, r1, c1), LinesOf(sel2, r2, c2);
    assert l1 == l2;
    assert |c1| == |l1| == |l2| == |c2|;
    forall i | 0 <= i < |c1|
      ensures c1[i] == c2[i] && ComponentValue(sel1, r1, c1[i]) == ComponentValue(sel2, r2, c2[i])
    {
      assert l1[i] == l2[i];
    }
  }

  /** Some component of the set names the whole of n. */
  predicate CoversWhole(covered: seq<Component>, n: string) {
    exists i | 0 <= i < |covered| :: Lower(covered[i].name) == n && covered[i].params == []
  }

  /** Some signature of the chain covers the whole of n. */
  predicate ChainCoversWhole(ps: seq<Params>, n: string) {
    exists k | 0 <= k < |ps| :: CoversWhole(ps[k].covered, n)
  }

  predicate SameField(r1: Request, r2: Request, n: string) {
    n in r1.fields && n in r2.fields && r1.fields[n] == r2.fields[n]
  }

  /** A field of its own, not one of the two headers that carry the signatures. */
  predicate Ordinary(n: string) { n != "signature" && n != "signature-input" }

  lemma WholeFieldAgrees(sel1: Select, r1: Request, sel2: Select, r2: Request, covered: seq<Component>, n: string)
    requires SameCovered(sel1, r1, sel2, r2, covered) && CoversWhole(covered, n) && Ordinary(n)
    ensures SameField(r1, r2, n)
  {
    var i :| 0 <= i < |covered| && Lower(covered[i].name) == n && covered[i].params == [];
    assert ComponentValue(sel1, r1, covered[i]) == ComponentValue(sel2, r2, covered[i]);
  }

  /** Both requests were accepted, and their last signatures are equal. */
  predicate SameLast(env1: Env, r1: Request, env2: Env, r2: Request) {
    && VerifyMultisig(env1, r1).Ok? && VerifyMultisig(env2, r2).Ok?
    && var v1, v2 := VerifyMultisig(env1, r1).value, VerifyMultisig(env2, r2).value;
    && |v1| > 0 && |v2| > 0 && v1[|v1| - 1].signature == v2[|v2| - 1].signature
  }

  /** Equal last signatures: the two requests carry the same chain throughout,
      with the same labels, covered sets, parameters and keys, over the same
      covered values; and every field that some signature covers whole agrees. */
  lemma ChainCommitment(env1: Env, r1: Request, env2: Env, r2: Request)
    requires SameLast(env1, r1, env2, r2)
    ensures var v1, v2 := VerifyMultisig(env1, r1).value, VerifyMultisig(env2, r2).value;
            && |v1| == |v2|
            && (forall i | 0 <= i < |v1| :: v1[i].signature == v2[i].signature && v1[i].publicKey == v2[i].publicKey)
    ensures Parse(r1).Ok? && Parse(r1) == Parse(r2)
    ensures forall i | 0 <= i < |Parse(r1).value| ::
              SameCovered(env1.select, r1, env2.select, r2, Parse(r1).value[i].covered)
    ensures forall n | Ordinary(n) && ChainCoversWhole(Parse(r1).value, n) :: SameField(r1, r2, n)
  {
    hide VerifySingle, VerifyMultisig, Parse, SigLabel, SameField, SameCovered, CoversWhole;
    var v1, v2 := VerifyMultisig(env1, r1).value, VerifyMultisig(env2, r2).value;
    AcceptedIsLinked(env1, r1);
    AcceptedIsLinked(env2, r2);
    SharedSignature(v1, |v1| - 1, v2, |v2| - 1);
    var p1, p2 := Parse(r1).value, Parse(r2).value;
    forall i | 0 <= i < |p1|
      ensures p1[i] == p2[i] && SameCovered(env1.select, r1, env2.select, r2, p1[i].covered)
      ensures v1[i].signature == v2[i].signature && v1[i].publicKey == v2[i].publicKey
    {
      SameAt(env1, r1, p1[i], env1.now(i), env2, r2, p2[i], env2.now(i));
    }
    assert p1 == p2;
    forall n | Ordinary(n) && ChainCoversWhole(p1, n)
      ensures SameField(r1, r2, n)
    {
      var k :| 0 <= k < |p1| && CoversWhole(p1[k].covered, n);
      WholeFieldAgrees(env1.select, r1, env2.select, r2, p1[k].covered, n);
    }
  }

  lemma SameAt(env1: Env, r1: Request, p1: Params, t1: int, env2: Env, r2: Request, p2: Params, t2: int)
    requires r1.signature.Parsed? && r2.signature.Parsed?
    requires VerifySingle(env1, r1, p1, t1).Ok? && VerifySingle(env2, r2, p2, t2).Ok?
    requires VerifySingle(env1, r1, p1, t1).value.signature == VerifySingle(env2, r2, p2, t2).value.signature
    requires VerifySingle(env1, r1, p1, t1).value.labelText == VerifySingle(env2, r2, p2, t2).value.labelText
    ensures p1 == p2 && SameCovered(env1.select, r1, env2.select, r2, p1.covered)
    ensures VerifySingle(env1, r1, p1, t1).value.publicKey == VerifySingle(env2, r2, p2, t2).value.publicKey
  {
    hide VerifySingle, BaseOf, SameCovered, CoversRequired, CoversEntitlement;
    SingleFacts(env1, r1, p1, t1);
    SingleFacts(env2, r2, p2, t2);
    SameBaseSameCovered(env1.select, r1, p1.covered, p1.sp, env2.select, r2, p2.covered, p2.sp);
  }

  /******* The body *******/

  ghost predicate SameLibrary(env1: Env, env2: Env) {
    && (forall b :: env1.digest(b) == env2.digest(b))
    && (forall n, v, ps :: env1.select(n, v, ps) == env2.select(n, v, ps))
  }

  /** The digest is injective, and so is any part read off a header that holds
      one: section 2 of RFC 9530 makes it a dictionary with that single member. */
  ghost predicate DigestReadable(env: Env) {
    forall v, w, b, c | TrimSpace(v) == env.digest(b) && TrimSpace(w) == env.digest(c) ::
      && (v == w ==> b == c)
      && forall ps :: env.select(DIGEST, v, ps).Some? && env.select(DIGEST, v, ps) == env.select(DIGEST, w, ps) ==> b == c
  }

  /** The bodies are equal as well, however the digest header is covered. */
  lemma BodyCommitment(env1: Env, r1: Request, env2: Env, r2: Request)
    requires SameLast(env1, r1, env2, r2) && SameLibrary(env1, env2) && DigestReadable(env1)
    ensures r1.body == r2.body
  {
    hide VerifySingle, VerifyMultisig, Parse, SigLabel, SameCovered, DigestReadable, TrimSpace;
    ChainCommitment(env1, r1, env2, r2);
    AcceptedIsLinked(env1, r1);
    AcceptedIsLinked(env2, r2);
    var p := Parse(r1).value[0];
    DigestChecked(env1, r1, p, env1.now(0));
    DigestChecked(env2, r2, Parse(r2).value[0], env2.now(0));
    SameDigestRead(env1, r1, env2, r2, p.covered);
  }

  lemma DigestChecked(env: Env, r: Request, p: Params, now: int)
    requires r.signature.Parsed? && VerifySingle(env, r, p, now).Ok?
    ensures TrimSpace(Get(r, DIGEST)) == env.digest(r.body) && Covers(p.covered, DIGEST)
  {
    hide VerifySingle, Covers, BaseOf;
    SingleFacts(env, r, p, now);
    assert Covers(p.covered, REQUIRED[2]);
  }

  lemma SameDigestRead(env1: Env, r1: Request, env2: Env, r2: Request, covered: seq<Component>)
    requires SameLibrary(env1, env2) && DigestReadable(env1)
    requires SameCovered(env1.select, r1, env2.select, r2, covered) && Covers(covered, DIGEST)
    requires TrimSpace(Get(r1, DIGEST)) == env1.digest(r1.body) && TrimSpace(Get(r2, DIGEST)) == env2.digest(r2.body)
    ensures r1.body == r2.body
  {
    hide TrimSpace;
    var i :| 0 <= i < |covered| && Lower(covered[i].name) == DIGEST;
    var c := covered[i];
    assert ComponentValue(env1.select, r1, c) == ComponentValue(env2.select, r2, c);
    assert DIGEST[0] != "signature"[0] && DIGEST[0] != "signature-input"[0];
    assert !IsLink(c) && !IsInput(c);
    var v, w := Get(r1, DIGEST), Get(r2, DIGEST);
    assert env1.digest(r2.body) == env2.digest(r2.body);
    if c.params != [] {
      assert env1.select(DIGEST, w, c.params) == env2.select(DIGEST, w, c.params);
      assert env1.select(DIGEST, v, c.params) == env1.select(DIGEST, w, c.params);
    }
  }

  /******* Which fields are bound *******/

  /** Nothing but part of n is covered, and v reads the same as the request's own
      value through every one of those parts. */
  ghost predicate ReadsSame(sel: Select, r: Request, ps: seq<Params>, n: string, v: string)
    requires n in r.fields
  {
    forall k, j | 0 <= k < |ps| && 0 <= j < |ps[k].covered| && Lower(ps[k].covered[j].name) == n ::
      ps[k].covered[j].params != [] && sel(n, v, ps[k].covered[j].params) == sel(n, r.fields[n], ps[k].covered[j].params)
  }

  /** The request with another value of n, and a verifier that resolves keys as it
      did for the request's own directory. */
  function Other(r: Request, n: string, v: string): Request { r.(fields := r.fields[n := v]) }

  function Lenient(env: Env, r: Request): Env {
    env.(resolve := (agent: string, keyId: string) => env.resolve(Agent(env, r), keyId))
  }

  /** v may stand for the request's own value of n, as far as anything but the
      signatures can tell. */
  ghost predicate MayReplace(r: Request, ps: seq<Params>, n: string, v: string) {
    && n in r.fields && Ordinary(n) && v != r.fields[n]
    && (n == DIGEST ==> TrimSpace(v) == TrimSpace(r.fields[n]) && v != "")
    && (n == ENTITLEMENT ==> forall k | 0 <= k < |ps| :: Covers(ps[k].covered, ENTITLEMENT))
  }

  lemma OtherLines(sel: Select, r: Request, n: string, v: string, ps: seq<Params>, k: nat)
    requires n in r.fields && Ordinary(n) && ReadsSame(sel, r, ps, n, v) && k < |ps|
    ensures BaseOf(sel, Other(r, n, v), ps[k].covered, ps[k].sp) == BaseOf(sel, r, ps[k].covered, ps[k].sp)
  {
    hide Lower;
    var covered := ps[k].covered;
    forall j | 0 <= j < |covered|
      ensures ComponentValue(sel, Other(r, n, v), covered[j]) == ComponentValue(sel, r, covered[j])
    {
    }
    if Resolvable(sel, r, covered) {
      assert LinesOf(sel, Other(r, n, v), covered) == LinesOf(sel, r, covered);
    }
  }

  lemma OtherVerifies(env: Env, r: Request, n: string, v: string, ps: seq<Params>, k: nat, now: int)
    requires r.signature.Parsed? && k < |ps| && MayReplace(r, ps, n, v) && ReadsSame(env.select, r, ps, n, v)
    requires VerifySingle(env, r, ps[k], now).Ok?
    ensures VerifySingle(Lenient(env, r), Other(r, n, v), ps[k], now).Ok?
    ensures VerifySingle(Lenient(env, r), Other(r, n, v), ps[k], now).value.signature == VerifySingle(env, r, ps[k], now).value.signature
  {
    OtherLines(env.select, r, n, v, ps, k);
    hide Lower, Covers, CoversRequired, BaseOf, CheckWindow, TrimSpace, ReadsSame;
    assert n == ENTITLEMENT ==> Covers(ps[k].covered, ENTITLEMENT);
    assert CheckDigest(Lenient(env, r), Other(r, n, v), ps[k].covered) == CheckDigest(env, r, ps[k].covered);
  }

  /** Another request with the same chain over another value of n. */
  lemma OtherAccepted(env: Env, r: Request, n: string, v: string)
    requires VerifyMultisig(env, r).Ok? && Parse(r).Ok?
    requires MayReplace(r, Parse(r).value, n, v) && ReadsSame(env.select, r, Parse(r).value, n, v)
    ensures SameLast(env, r, Lenient(env, r), Other(r, n, v)) && SameLibrary(env, Lenient(env, r))
    ensures !SameField(r, Other(r, n, v), n)
  {
    hide VerifySingle, SigLabel, ReadsSame, MayReplace, Gate;
    var env', r' := Lenient(env, r), Other(r, n, v);
    AcceptedParts(env, r);
    var ps := r.input.value;
    EachVerified(env, r, ps);
    forall k | 0 <= k < |ps|
      ensures VerifySingle(env', r', ps[k], env'.now(k)).Ok?
      ensures VerifySingle(env', r', ps[k], env'.now(k)).value.signature == VerifySingle(env, r, ps[k], env.now(k)).value.signature
    {
      OtherVerifies(env, r, n, v, ps, k, env.now(k));
    }
    assert Parse(r') == Ok(ps);
    EachVerified(env', r', ps);
    assert VerifyMultisig(env', r') == VerifyEach(env', r', ps);
    assert v != r.fields[n] by { Replaces(r, ps, n, v); }
  }

  lemma Replaces(r: Request, ps: seq<Params>, n: string, v: string)
    requires MayReplace(r, ps, n, v)
    ensures n in r.fields && v != r.fields[n]
  {
  }

  ghost predicate ReadAlike(sel: Select, n: string, v: string, w: string, parts: set<seq<ComponentParam>>) {
    forall ps | ps in parts :: sel(n, w, ps) == sel(n, v, ps)
  }

  /** Another value of n reads the same through every one of the parts. */
  ghost predicate OtherReading(sel: Select, n: string, v: string, parts: set<seq<ComponentParam>>) {
    exists w: string :: w != v && ReadAlike(sel, n, v, w, parts)
  }

  /** However many parts of n are read, something stays unread. */
  ghost predicate Forgetful(sel: Select, n: string) {
    forall v: string, parts | [] !in parts :: OtherReading(sel, n, v, parts)
  }

  /** Reading parts as a structured-field library does: a derived component has
      none, a header field has more than any parts of it, and a trailing space is
      not part of one. */
  ghost predicate ReadsParts(sel: Select) {
    && (forall n, v, ps | n in {"@method", "@target-uri"} && ps != [] :: sel(n, v, ps).None?)
    && Forgetful(sel, "authorization") && Forgetful(sel, "signature-agent") && Forgetful(sel, ENTITLEMENT)
    && (forall v, ps | ps != [] :: sel(DIGEST, v + " ", ps) == sel(DIGEST, v, ps))
  }

  /** If every signature covers n, some signature covers the whole of it. */
  predicate Bound(ps: seq<Params>, n: string) {
    (forall k | 0 <= k < |ps| :: Covers(ps[k].covered, n)) ==> ChainCoversWhole(ps, n)
  }

  const FIELDS: seq<string> := REQUIRED + [ENTITLEMENT]

  /** The requests agree on every required component and on the entitlement. */
  predicate SameFields(r1: Request, r2: Request) {
    && (forall i | 0 <= i < |REQUIRED| :: SameField(r1, r2, REQUIRED[i]))
    && Get(r1, ENTITLEMENT) == Get(r2, ENTITLEMENT)
  }

  /** Equal last signatures make these requests agree. */
  ghost predicate Commits(env: Env, r: Request) {
    forall env2, r2 | SameLast(env, r, env2, r2) && SameLibrary(env, env2) :: SameFields(r, r2)
  }

  lemma NotLinks(i: nat)
    requires i < |FIELDS|
    ensures Ordinary(FIELDS[i]) && FIELDS[i] in {"@method", "@target-uri", DIGEST, "authorization", "signature-agent", ENTITLEMENT}
    ensures i < |REQUIRED| ==> FIELDS[i] == REQUIRED[i]
  {
    var n := FIELDS[i];
    assert |n| != 9 && (|n| != 15 || n[10] == 'a');
  }

  lemma AllCover(env: Env, r: Request, k: nat)
    requires VerifyMultisig(env, r).Ok? && Parse(r).Ok? && k < |Parse(r).value|
    ensures CoversRequired(Parse(r).value[k].covered) && CoversEntitlement(r, Parse(r).value[k].covered)
    ensures Resolvable(env.select, r, Parse(r).value[k].covered)
  {
    hide VerifySingle, VerifyMultisig, Parse, SigLabel, CoversRequired, CoversEntitlement, Gate;
    AcceptedIsLinked(env, r);
    SingleFacts(env, r, Parse(r).value[k], env.now(k));
  }

  lemma FieldsAgree(env: Env, r: Request, env2: Env, r2: Request)
    requires SameLast(env, r, env2, r2) && Parse(r).Ok?
    requires forall i | 0 <= i < |FIELDS| :: Bound(Parse(r).value, FIELDS[i])
    ensures SameFields(r, r2)
  {
    hide VerifyMultisig, Parse, SigLabel, ChainCoversWhole, Covers, SameField, SameCovered;
    ChainCommitment(env, r, env2, r2);
    var ps := Parse(r).value;
    forall k | 0 <= k < |ps|
      ensures CoversRequired(ps[k].covered) && CoversEntitlement(r, ps[k].covered) && CoversEntitlement(r2, ps[k].covered)
    {
      AllCover(env, r, k);
      AllCover(env2, r2, k);
    }
    forall i | 0 <= i < |REQUIRED|
      ensures SameField(r, r2, REQUIRED[i])
    {
      NotLinks(i);
      assert Bound(ps, FIELDS[i]);
    }
    EntitlementAgrees(r, r2, ps);
  }

  lemma EntitlementAgrees(r: Request, r2: Request, ps: seq<Params>)
    requires forall k | 0 <= k < |ps| :: CoversEntitlement(r, ps[k].covered) && CoversEntitlement(r2, ps[k].covered)
    requires forall n | Ordinary(n) && ChainCoversWhole(ps, n) :: SameField(r, r2, n)
    requires forall i | 0 <= i < |FIELDS| :: Bound(ps, FIELDS[i])
    ensures Get(r, ENTITLEMENT) == Get(r2, ENTITLEMENT)
  {
    hide Covers, ChainCoversWhole;
    var i := |REQUIRED|;
    NotLinks(i);
    assert FIELDS[i] == ENTITLEMENT && Bound(ps, FIELDS[i]);
    if k :| 0 <= k < |ps| && !Covers(ps[k].covered, ENTITLEMENT) {
      assert CoversEntitlement(r, ps[k].covered) && CoversEntitlement(r2, ps[k].covered);
    }
  }

  lemma PartsOnly(sel: Select, r: Request, ps: seq<Params>, n: string) returns (w: string)
    requires n in r.fields && Forgetful(sel, n) && !ChainCoversWhole(ps, n)
    ensures w != r.fields[n] && ReadsSame(sel, r, ps, n, w)
  {
    hide Lower;
    var parts := set k, j | 0 <= k < |ps| && 0 <= j < |ps[k].covered| && Lower(ps[k].covered[j].name) == n :: ps[k].covered[j].params;
    forall k, j | 0 <= k < |ps| && 0 <= j < |ps[k].covered| && Lower(ps[k].covered[j].name) == n
      ensures ps[k].covered[j].params != [] && ps[k].covered[j].params in parts
    {
      assert !CoversWhole(ps[k].covered, n);
    }
    assert OtherReading(sel, n, r.fields[n], parts);
    w :| w != r.fields[n] && ReadAlike(sel, n, r.fields[n], w, parts);
  }

  lemma SpaceUnread(sel: Select, r: Request, ps: seq<Params>)
    requires DIGEST in r.fields && ReadsParts(sel) && !ChainCoversWhole(ps, DIGEST)
    ensures ReadsSame(sel, r, ps, DIGEST, r.fields[DIGEST] + " ")
    ensures r.fields[DIGEST] + " " != r.fields[DIGEST] && TrimSpace(r.fields[DIGEST] + " ") == TrimSpace(r.fields[DIGEST])
  {
    hide Lower, TrimSpace, Forgetful;
    TrimTrailing(r.fields[DIGEST], ' ');
    assert |r.fields[DIGEST] + " "| > |r.fields[DIGEST]|;
    forall k, j | 0 <= k < |ps| && 0 <= j < |ps[k].covered| && Lower(ps[k].covered[j].name) == DIGEST
      ensures ps[k].covered[j].params != []
    {
      assert !CoversWhole(ps[k].covered, DIGEST);
    }
  }

  /** A name that every signature covers has a value, and a derived component is
      covered whole. */
  lemma CoveredPresent(env: Env, r: Request, n: string)
    requires VerifyMultisig(env, r).Ok? && Parse(r).Ok? && Ordinary(n) && ReadsParts(env.select)
    requires forall k | 0 <= k < |Parse(r).value| :: Covers(Parse(r).value[k].covered, n)
    ensures n in r.fields
    ensures n in {"@method", "@target-uri"} ==> ChainCoversWhole(Parse(r).value, n)
  {
    hide VerifyMultisig, Parse, SigLabel, Lower, Forgetful;
    AcceptedIsLinked(env, r);
    AllCover(env, r, 0);
    var covered := Parse(r).value[0].covered;
    assert Covers(covered, n);
    var j :| 0 <= j < |covered| && Lower(covered[j].name) == n;
    assert ComponentValue(env.select, r, covered[j]).Some?;
    if n in {"@method", "@target-uri"} {
      assert covered[j].params == [];
      assert CoversWhole(covered, n);
    }
  }

  lemma UnboundDiffers(env: Env, r: Request, i: nat)
    requires VerifyMultisig(env, r).Ok? && Parse(r).Ok? && ReadsParts(env.select)
    requires i < |FIELDS| && !Bound(Parse(r).value, FIELDS[i])
    ensures !Commits(env, r)
  {
    hide VerifyMultisig, Parse, ChainCoversWhole, Covers, ReadsSame, TrimSpace, Forgetful, SameLast, SameLibrary;
    var n, ps := FIELDS[i], Parse(r).value;
    NotLinks(i);
    CoveredPresent(env, r, n);
    var w: string;
    if n == DIGEST {
      SpaceUnread(env.select, r, ps);
      w := r.fields[n] + " ";
    } else {
      w := PartsOnly(env.select, r, ps, n);
    }
    OtherAccepted(env, r, n, w);
    assert !SameFields(r, Other(r, n, w));
  }

  /** The last signature commits to the required components and the entitlement
      exactly when each of them that every signature covers is covered whole by
      some signature; coverage by name alone is not enough. */
  lemma FieldsCommittedIff(env: Env, r: Request)
    requires VerifyMultisig(env, r).Ok? && ReadsParts(env.select)
    ensures Parse(r).Ok? && (Commits(env, r) <==> forall i | 0 <= i < |FIELDS| :: Bound(Parse(r).value, FIELDS[i]))
  {
    hide VerifyMultisig, Parse, Bound, ReadsParts, SameLast, SameFields;
    AcceptedIsLinked(env, r);
    if i :| 0 <= i < |FIELDS| && !Bound(Parse(r).value, FIELDS[i]) {
      UnboundDiffers(env, r, i);
    } else {
      forall env2, r2 | SameLast(env, r, env2, r2) && SameLibrary(env, env2)
        ensures SameFields(r, r2)
      {
        FieldsAgree(env, r, env2, r2);
      }
    }
  }

  /******* Chains the signer builds *******/

  lemma SignerCoversWhole(fields: map<string, string>, count: int, n: string)
    requires Ordinary(n) && Covers(ChainCovered(fields, count), n)
    ensures CoversWhole(ChainCovered(fields, count), n)
  {
    hide RampNames, SigLabel, Lower;
    var all := ChainCovered(fields, count);
    var i :| 0 <= i < |all| && Lower(all[i].name) == n;
    if i == |RampNames(fields)| {
      assert false;
    }
    assert all[i].params == [];
  }

  /** A chain appended by the signer covers every component whole, so its last
      signature commits to the required components and the entitlement, however
      the library reads parts. */
  lemma AppendedFieldsCommitted(env: Env, r0: Request, hops: seq<Hop>, digest: string -> string)
    requires Unsigned(r0) && 1 <= |hops| < TWO63 && AppendAll(r0, hops, digest).Some?
    requires VerifyMultisig(env, AppendAll(r0, hops, digest).value).Ok?
    ensures Commits(env, AppendAll(r0, hops, digest).value)
  {
    hide VerifyMultisig, SigLabel, AppendAll, ChainCovered, BaseOf, SameLast, SameFields, Covers, CoversWhole;
    AppendsBuild(r0, hops, digest);
    var r := AppendAll(r0, hops, digest).value;
    AcceptedParts(env, r);
    var ps := r.input.value;
    assert EntryAt(r, hops, 0);
    forall i | 0 <= i < |FIELDS|
      ensures Bound(ps, FIELDS[i])
    {
      NotLinks(i);
      if Covers(ps[0].covered, FIELDS[i]) {
        SignerCoversWhole(r.fields, 0, FIELDS[i]);
      }
    }
    forall env2, r2 | SameLast(env, r, env2, r2) && SameLibrary(env, env2)
      ensures SameFields(r, r2)
    {
      FieldsAgree(env, r, env2, r2);
    }
  }

  /******* A reading, and two requests it does not tell apart *******/

  function LastMember(parts: seq<string>, key: string): Option<string> {
    if parts == [] then None
    else
      var last := TrimSpace(parts[|parts| - 1]);
      if key + "=" <= last then Some(last[|key| + 1..]) else LastMember(parts[..|parts| - 1], key)
  }

  predicate Derived(name: string) { name != "" && name[0] == '@' }

  /** A dictionary of unquoted members: the last one under the key parameter. */
  function DictionaryMember(name: string, value: string, ps: seq<ComponentParam>): Option<string> {
    if Derived(name) then None else LastMember(Split(value, ','), ParamOf(ps, "key"))
  }

  lemma ExtraUnread(v: string, key: string)
    ensures LastMember(Split(v + "," + "x", ','), key) == LastMember(Split(v, ','), key)
  {
    SplitAppended(v, ',', "x");
    var parts := Split(v, ',');
    var more := parts + ["x"];
    assert more[..|more| - 1] == parts && TrimSpace("x") == "x";
    assert key == "" ==> key + "=" == "=";
    assert |key + "="| == |key| + 1;
  }

  lemma TrailingSpaceUnread(v: string, key: string)
    ensures LastMember(Split(v + " ", ','), key) == LastMember(Split(v, ','), key)
  {
    hide TrimSpace;
    SplitTrailing(v, ',', ' ');
    var parts, more := Split(v, ','), Split(v + " ", ',');
    TrimTrailing(parts[|parts| - 1], ' ');
    assert more[..|more| - 1] == parts[..|parts| - 1];
  }

  lemma DictionaryForgetful(n: string)
    requires !Derived(n)
    ensures Forgetful(DictionaryMember, n)
  {
    forall v: string, parts: set<seq<ComponentParam>> | [] !in parts
      ensures OtherReading(DictionaryMember, n, v, parts)
    {
      var w := v + "," + "x";
      assert |w| > |v|;
      forall ps | ps in parts
        ensures DictionaryMember(n, w, ps) == DictionaryMember(n, v, ps)
      {
        ExtraUnread(v, ParamOf(ps, "key"));
      }
      assert ReadAlike(DictionaryMember, n, v, w, parts);
    }
  }

  /** The plain dictionary reading has the properties the law above asks for. */
  lemma DictionaryReadsParts()
    ensures ReadsParts(DictionaryMember)
  {
    hide Forgetful;
    DictionaryForgetful("authorization");
    DictionaryForgetful("signature-agent");
    DictionaryForgetful(ENTITLEMENT);
    forall v, ps: seq<ComponentParam> | ps != []
      ensures DictionaryMember(DIGEST, v + " ", ps) == DictionaryMember(DIGEST, v, ps)
    {
      TrailingSpaceUnread(v, ParamOf(ps, "key"));
    }
  }

  /** Authorization is covered through its member a alone. */
  const PARTIAL: seq<Component> :=
    [Component("@method", []), Component("@target-uri", []), Component(DIGEST, []),
     Component("authorization", [ComponentParam("key", "a")]), Component("signature-agent", [])]

  const PARTIAL_INPUT := Params("sig1", PARTIAL, SigParams("k", "ed25519", 1, 1, "", ""))

  function PartialBase(): Base {
    var values := ["POST", "u", "d", "1", ""];
    Base(seq(5, i requires 0 <= i < 5 => Line(PARTIAL[i], Plain(values[i]))), PARTIAL_INPUT.sp)
  }

  /** One signature over that set, on a request with the given Authorization. */
  function PartialRequest(authorization: string): Request {
    Request(map["@method" := "POST", "@target-uri" := "u", DIGEST := "d", "authorization" := authorization, "signature-agent" := ""],
            "", Parsed([PARTIAL_INPUT]), Parsed(map["sig1" := Ed("k", PartialBase())]))
  }

  const PARTIAL_ENV := Env((agent, k) => Found(k), b => "d", a => a, DictionaryMember, i => 1, 300, 0)

  lemma PartialLower(i: nat)
    requires i < |PARTIAL|
    ensures Lower(PARTIAL[i].name) == PARTIAL[i].name == REQUIRED[i] && !IsLink(PARTIAL[i]) && !IsInput(PARTIAL[i])
  {
    var n := PARTIAL[i].name;
    assert Lower(n) == n;
    assert |n| != 9 && (|n| != 15 || n[10] == 'a');
  }

  lemma TwoParts(rest: string)
    requires ',' !in rest
    ensures Split("a=1" + "," + rest, ',') == ["a=1", rest]
  {
    hide Split;
    SplitAppended("a=1", ',', rest);
    SplitNothing("a=1", ',');
  }

  lemma FirstMember(rest: string)
    requires TrimSpace(rest) != "" && TrimSpace(rest)[0] != 'a'
    ensures LastMember(["a=1", rest], "a") == Some("1")
  {
    hide TrimSpace;
    var parts := ["a=1", rest];
    assert parts[..1] == ["a=1"] && ["a=1"][..0] == [];
    assert "a" + "=" == "a=";
    assert !("a=" <= TrimSpace(rest));
    assert TrimSpace("a=1") == "a=1" by { Untrimmed(); }
    assert "a=1"[..2] == "a=" && "a=1"[2..] == "1";
    assert LastMember(["a=1"], "a") == Some("1");
  }

  lemma Untrimmed()
    ensures TrimSpace("a=1") == "a=1" && TrimSpace("d") == "d"
  {
  }

  lemma MemberA(authorization: string)
    requires authorization in {"a=1, b=2", "a=1, b=3"}
    ensures DictionaryMember("authorization", authorization, [ComponentParam("key", "a")]) == Some("1")
  {
    hide Split, LastMember;
    var rest := authorization[4..];
    assert authorization == "a=1" + "," + rest;
    assert |rest| == 4 && rest[0] == ' ' && rest[1] == 'b' && !IsSpace(rest[3]) && ',' !in rest;
    TwoParts(rest);
    assert TrimSpace(rest) == rest[1..];
    FirstMember(rest);
  }

  lemma PartialValue(authorization: string, i: nat)
    requires authorization in {"a=1, b=2", "a=1, b=3"} && i < |PARTIAL|
    ensures ComponentValue(DictionaryMember, PartialRequest(authorization), PARTIAL[i]) == Some(PartialBase().lines[i].value)
  {
    MemberA(authorization);
    PartialLower(i);
    hide DictionaryMember, Lower, IsLink, IsInput;
  }

  lemma PartialBaseOf(authorization: string)
    requires authorization in {"a=1, b=2", "a=1, b=3"}
    ensures BaseOf(DictionaryMember, PartialRequest(authorization), PARTIAL, PARTIAL_INPUT.sp) == Some(PartialBase())
  {
    hide DictionaryMember, ComponentValue, PartialRequest;
    var r := PartialRequest(authorization);
    forall i | 0 <= i < |PARTIAL|
      ensures ComponentValue(DictionaryMember, r, PARTIAL[i]) == Some(PartialBase().lines[i].value)
    {
      PartialValue(authorization, i);
    }
    assert LinesOf(DictionaryMember, r, PARTIAL) == PartialBase().lines;
  }

  lemma PartialAccepted(authorization: string)
    requires authorization in {"a=1, b=2", "a=1, b=3"}
    ensures VerifyMultisig(PARTIAL_ENV, PartialRequest(authorization)).Ok?
    ensures VerifyMultisig(PARTIAL_ENV, PartialRequest(authorization)).value ==
            [Verified("k", "ed25519", "sig1", Ed("k", PartialBase()), 1, 1, "k", "")]
  {
    PartialBaseOf(authorization);
    hide DictionaryMember, Lower, IsLink, IsInput, BaseOf;
    var r := PartialRequest(authorization);
    var ps := r.input.value;
    forall i | 0 <= i < |REQUIRED|
      ensures Covers(PARTIAL, REQUIRED[i])
    {
      PartialLower(i);
    }
    assert Lower("ed25519") == "ed25519";
    Untrimmed();
    var v := Verified("k", "ed25519", "sig1", Ed("k", PartialBase()), 1, 1, "k", "");
    assert VerifySingle(PARTIAL_ENV, r, PARTIAL_INPUT, 1) == Ok(v);
    PartialGate();
    hide VerifySingle, PartialBase, Gate;
    assert Parse(r) == Ok(ps);
    assert ps[..0] == [] && VerifyEach(PARTIAL_ENV, r, ps[..0]) == Ok([]);
    assert [] + [v] == [v];
    assert VerifyEach(PARTIAL_ENV, r, ps) == Ok([v]);
  }

  lemma PartialGate()
    ensures Gate([PARTIAL_INPUT])
  {
    forall i | 0 <= i < |PARTIAL|
      ensures !IsLink(PARTIAL[i])
    {
      PartialLower(i);
    }
    PlainsHaveNoLinks(PARTIAL);
    assert Itoa(1) == "1";
  }

  /** Two requests that differ in Authorization are accepted with the same report:
      their one signature covers Authorization by name, and reads member a of it. */
  lemma PartOfFieldSigned()
    ensures var r1, r2 := PartialRequest("a=1, b=2"), PartialRequest("a=1, b=3");
            && SameLast(PARTIAL_ENV, r1, PARTIAL_ENV, r2) && VerifyMultisig(PARTIAL_ENV, r1) == VerifyMultisig(PARTIAL_ENV, r2)
            && r1.fields["authorization"] == "a=1, b=2" && r2.fields["authorization"] == "a=1, b=3"
  {
    hide VerifyMultisig;
    PartialAccepted("a=1, b=2");
    PartialAccepted("a=1, b=3");
  }
}

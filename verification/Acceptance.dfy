/** When a request is accepted, spelled out: the labels, the links, the names that
    must be covered, the window, the digest, the directory and the signed bytes. */
module Acceptance {
  import opened Text
  import opened Chain
  import opened Verifier

  /** Both headers parse, with at least one signature, every one with a key id and
      with bytes under its label. */
  predicate HeadersOk(r: Request) {
    && r.input.Parsed? && r.signature.Parsed? && r.input.value != []
    && forall i | 0 <= i < |r.input.value| ::
         r.input.value[i].sp.keyId != "" && r.input.value[i].labelText in r.signature.value
  }

  predicate Names(covered: seq<Component>, name: string) {
    exists j | 0 <= j < |covered| :: Lower(covered[j].name) == name
  }

  /** The j-th component is the only one named "signature", and names key. */
  predicate OnlyLink(covered: seq<Component>, key: string, j: nat) {
    && j < |covered| && Lower(covered[j].name) == "signature" && ParamOf(covered[j].params, "key") == key
    && forall m | 0 <= m < |covered| && m != j :: Lower(covered[m].name) != "signature"
  }

  /** The i-th signature is labelled sig(i+1) and covers no signature when it is
      the first, and exactly the one before it otherwise. */
  ghost predicate ChainOk(p: Params, i: nat) {
    && p.labelText == "sig" + Itoa(i + 1)
    && if i == 0 then !Names(p.covered, "signature") else exists j: nat :: OnlyLink(p.covered, "sig" + Itoa(i), j)
  }

  /** v is what the request holds for the covered component c. */
  predicate Holds(env: Env, r: Request, c: Component, v: LineValue)
    requires r.input.Parsed? && r.signature.Parsed?
  {
    var name, key := Lower(c.name), ParamOf(c.params, "key");
    if name == "signature" then key in r.signature.value && v == Member(r.signature.value[key])
    else if name == "signature-input" then
      if c.params == [] then v == Inputs(r.input.value)
      else
        exists m | 0 <= m < |r.input.value| ::
          && r.input.value[m].labelText == key && v == Input(r.input.value[m])
          && forall l | 0 <= l < m :: r.input.value[l].labelText != key
    else
      && name in r.fields
      && if c.params == [] then v == Plain(r.fields[name])
         else v.Plain? && env.select(name, r.fields[name], c.params) == Some(v.text)
  }

  predicate CoverageOk(r: Request, covered: seq<Component>) {
    && Names(covered, "@method") && Names(covered, "@target-uri") && Names(covered, "content-digest")
    && Names(covered, "authorization") && Names(covered, "signature-agent")
    && ("x-ramp-entitlement-biscuit" in r.fields && r.fields["x-ramp-entitlement-biscuit"] != "" ==>
          Names(covered, "x-ramp-entitlement-biscuit"))
  }

  predicate WindowOk(sp: SigParams, now: int, maxSkew: int) {
    sp.created != 0 && sp.expires != 0 && sp.expires >= now && sp.created <= now + maxSkew
  }

  predicate DigestOk(env: Env, r: Request) {
    && "content-digest" in r.fields && r.fields["content-digest"] != ""
    && TrimSpace(r.fields["content-digest"]) == env.digest(r.body)
  }

  /** The bytes under the label are a signature, by the key the sender's directory
      gives for the key id, over exactly the covered values and the parameters. */
  predicate BytesOk(env: Env, r: Request, p: Params)
    requires r.input.Parsed? && r.signature.Parsed? && p.labelText in r.signature.value
  {
    var sig := r.signature.value[p.labelText];
    && sig.Ed? && sig.base.params == p.sp && |sig.base.lines| == |p.covered|
    && (forall j | 0 <= j < |p.covered| ::
          sig.base.lines[j].component == p.covered[j] && Holds(env, r, p.covered[j], sig.base.lines[j].value))
    && "signature-agent" in r.fields
    && env.resolve(env.directory(r.fields["signature-agent"]), p.sp.keyId) == Found(sig.key)
  }

  predicate SignatureOk(env: Env, r: Request, p: Params, now: int)
    requires r.input.Parsed? && r.signature.Parsed? && p.labelText in r.signature.value
  {
    && Lower(p.sp.alg) == "ed25519" && CoverageOk(r, p.covered) && WindowOk(p.sp, now, env.maxSkew)
    && DigestOk(env, r) && BytesOk(env, r, p)
  }

  /******* The chain *******/

  lemma {:induction false} NoLinks(covered: seq<Component>)
    ensures LinkKeys(covered) == [] <==> !Names(covered, "signature")
  {
    hide Lower;
    if covered == [] {
    } else {
      var n := |covered| - 1;
      NoLinks(covered[..n]);
      if j :| 0 <= j < n && Lower(covered[..n][j].name) == "signature" {
        assert Lower(covered[j].name) == "signature";
      }
      if j :| 0 <= j < |covered| && Lower(covered[j].name) == "signature" {
        assert j < n ==> Lower(covered[..n][j].name) == "signature";
      }
    }
  }

  lemma {:induction false} OneLink(covered: seq<Component>, key: string)
    ensures LinkKeys(covered) == [key] <==> exists j: nat :: OnlyLink(covered, key, j)
  {
    hide Lower, ParamOf;
    if covered == [] {
    } else {
      var n := |covered| - 1;
      var init := covered[..n];
      OneLink(init, key);
      NoLinks(init);
      if IsLink(covered[n]) {
        LastLink(covered, n, key);
      } else {
        if j: nat :| OnlyLink(init, key, j) {
          assert OnlyLink(covered, key, j);
        }
        if j: nat :| OnlyLink(covered, key, j) {
          assert OnlyLink(init, key, j);
        }
      }
    }
  }

  lemma OneLeft(a: seq<string>, k: string, key: string)
    ensures a + [k] == [key] <==> a == [] && k == key
  {
    if a + [k] == [key] {
      assert |a + [k]| == |a| + 1;
      assert (a + [k])[0] == key;
    }
  }

  lemma LastLink(covered: seq<Component>, n: nat, key: string)
    requires n == |covered| - 1 && IsLink(covered[n])
    ensures LinkKeys(covered) == [key] <==> exists j: nat :: OnlyLink(covered, key, j)
  {
    NoLinks(covered[..n]);
    OneLeft(LinkKeys(covered[..n]), ParamOf(covered[n].params, "key"), key);
    LastOnly(covered, n, key);
    hide Lower, ParamOf, OnlyLink, Names;
  }

  lemma LastOnly(covered: seq<Component>, n: nat, key: string)
    requires n == |covered| - 1 && IsLink(covered[n])
    ensures (exists j: nat :: OnlyLink(covered, key, j)) <==>
            !Names(covered[..n], "signature") && ParamOf(covered[n].params, "key") == key
  {
    hide Lower, ParamOf;
    assert forall m | 0 <= m < n :: covered[..n][m] == covered[m];
    if !Names(covered[..n], "signature") && ParamOf(covered[n].params, "key") == key {
      assert OnlyLink(covered, key, n);
    }
    if j: nat :| OnlyLink(covered, key, j) {
      assert j == n;
    }
  }

  lemma ChainAt(p: Params, i: nat)
    ensures ChainOk(p, i) <==> p.labelText == SigLabel(i + 1) && LinkKeys(p.covered) == if i == 0 then [] else [SigLabel(i)]
  {
    hide Itoa, OnlyLink, Names, LinkKeys;
    NoLinks(p.covered);
    OneLink(p.covered, SigLabel(i));
  }

  lemma GateIsChain(ps: seq<Params>)
    ensures Gate(ps) <==> forall i | 0 <= i < |ps| :: ChainOk(ps[i], i)
  {
    hide LinkKeys, SigLabel, ChainOk;
    if Gate(ps) {
      forall i | 0 <= i < |ps|
        ensures ChainOk(ps[i], i)
      {
        ChainAt(ps[i], i);
        assert ps[i].labelText == SigLabel(i + 1);
      }
    }
    if forall i | 0 <= i < |ps| :: ChainOk(ps[i], i) {
      forall i | 0 <= i < |ps|
        ensures ps[i].labelText == SigLabel(i + 1) && LinkKeys(ps[i].covered) == if i == 0 then [] else [SigLabel(i)]
      {
        ChainAt(ps[i], i);
        assert ChainOk(ps[i], i);
      }
    }
  }

  /******* One signature *******/

  lemma {:induction false} NamedIsFirst(ps: seq<Params>, name: string, p: Params)
    ensures InputNamed(ps, name) == Some(p) <==>
            exists m | 0 <= m < |ps| ::
              ps[m].labelText == name && p == ps[m] && forall l | 0 <= l < m :: ps[l].labelText != name
  {
    if ps == [] {
    } else if ps[0].labelText == name {
    } else {
      var rest := ps[1..];
      NamedIsFirst(rest, name, p);
      if m :| 0 <= m < |rest| && rest[m].labelText == name && p == rest[m] && forall l | 0 <= l < m :: rest[l].labelText != name {
        assert ps[m + 1] == rest[m] && forall l | 0 <= l < m + 1 :: ps[l].labelText != name;
      }
      if m :| 0 <= m < |ps| && ps[m].labelText == name && p == ps[m] && forall l | 0 <= l < m :: ps[l].labelText != name {
        assert rest[m - 1] == ps[m] && forall l | 0 <= l < m - 1 :: rest[l].labelText != name;
      }
    }
  }

  lemma ValueIsHeld(env: Env, r: Request, c: Component, v: LineValue)
    requires r.input.Parsed? && r.signature.Parsed?
    ensures ComponentValue(env.select, r, c) == Some(v) <==> Holds(env, r, c, v)
  {
    hide Lower, InputNamed;
    if v.Input? {
      NamedIsFirst(r.input.value, ParamOf(c.params, "key"), v.one);
    }
  }

  lemma BytesIff(env: Env, r: Request, p: Params)
    requires r.input.Parsed? && r.signature.Parsed? && p.labelText in r.signature.value && Names(p.covered, "signature-agent")
    ensures BytesOk(env, r, p) <==>
            var base := BaseOf(env.select, r, p.covered, p.sp);
            var key := env.resolve(Agent(env, r), p.sp.keyId);
            base.Some? && key.Found? && r.signature.value[p.labelText] == Ed(key.key, base.value)
  {
    hide Lower, ComponentValue, Holds;
    var sig := r.signature.value[p.labelText];
    if sig.Ed? && |sig.base.lines| == |p.covered| {
      forall j | 0 <= j < |p.covered|
        ensures ComponentValue(env.select, r, p.covered[j]) == Some(sig.base.lines[j].value) <==>
                Holds(env, r, p.covered[j], sig.base.lines[j].value)
      {
        ValueIsHeld(env, r, p.covered[j], sig.base.lines[j].value);
      }
      if BytesOk(env, r, p) {
        assert LinesOf(env.select, r, p.covered) == sig.base.lines;
      }
    }
    if Resolvable(env.select, r, p.covered) {
      AgentPresent(env, r, p);
    }
  }

  lemma AgentPresent(env: Env, r: Request, p: Params)
    requires Resolvable(env.select, r, p.covered) && Names(p.covered, "signature-agent")
    ensures "signature-agent" in r.fields
  {
    hide Lower;
    var j :| 0 <= j < |p.covered| && Lower(p.covered[j].name) == "signature-agent";
    assert ComponentValue(env.select, r, p.covered[j]).Some?;
    assert "signature-agent"[10] != "signature-input"[10];
  }

  lemma CoverageIff(r: Request, covered: seq<Component>)
    ensures CoverageOk(r, covered) <==> CoversRequired(covered) && CoversEntitlement(r, covered)
  {
    hide Lower;
    assert REQUIRED[0] == "@method" && REQUIRED[1] == "@target-uri" && REQUIRED[2] == "content-digest";
    assert REQUIRED[3] == "authorization" && REQUIRED[4] == "signature-agent";
    assert forall n :: Names(covered, n) <==> Covers(covered, n);
    if CoverageOk(r, covered) {
      forall i | 0 <= i < |REQUIRED|
        ensures Covers(covered, REQUIRED[i])
      {
      }
    }
  }

  lemma SingleIff(env: Env, r: Request, p: Params, now: int)
    requires r.input.Parsed? && r.signature.Parsed? && p.labelText in r.signature.value
    ensures VerifySingle(env, r, p, now).Ok? <==> SignatureOk(env, r, p, now)
  {
    CoverageIff(r, p.covered);
    if CoverageOk(r, p.covered) {
      BytesIff(env, r, p);
      assert Covers(p.covered, "content-digest") by { assert REQUIRED[2] == "content-digest"; }
    }
    hide Lower, Covers, Names, CoversRequired, CoversEntitlement, BaseOf, BytesOk, CoverageOk, TrimSpace;
  }

  /** A request is accepted exactly when its headers are in order, its hop count is
      within the bound, its labels and links form the chain, and every signature
      meets every rule at its own clock reading. */
  lemma AcceptedIff(env: Env, r: Request)
    ensures VerifyMultisig(env, r).Ok? <==>
            && HeadersOk(r)
            && (env.maxSignatures <= 0 || |r.input.value| <= env.maxSignatures)
            && (forall i | 0 <= i < |r.input.value| :: ChainOk(r.input.value[i], i))
            && (forall i | 0 <= i < |r.input.value| :: SignatureOk(env, r, r.input.value[i], env.now(i)))
  {
    hide VerifySingle, SignatureOk, Gate, ChainOk, VerifyEach;
    assert Parse(r).Ok? <==> HeadersOk(r);
    if HeadersOk(r) {
      var ps := r.input.value;
      GateIsChain(ps);
      EachVerified(env, r, ps);
      forall i | 0 <= i < |ps|
        ensures VerifySingle(env, r, ps[i], env.now(i)).Ok? <==> SignatureOk(env, r, ps[i], env.now(i))
      {
        SingleIff(env, r, ps[i], env.now(i));
      }
    }
  }

  /** What a refused signature is refused for: the first rule it breaks, in order. */
  lemma RefusedFor(env: Env, r: Request, p: Params, now: int)
    requires r.input.Parsed? && r.signature.Parsed? && p.labelText in r.signature.value
    ensures var out := VerifySingle(env, r, p, now);
            if Lower(p.sp.alg) != "ed25519" then out == Err(UnsupportedAlgorithm)
            else if !CoverageOk(r, p.covered) then out == Err(MissingRequiredComponent)
            else if p.sp.created == 0 then out == Err(MissingCreated)
            else if p.sp.expires == 0 then out == Err(MissingExpires)
            else if p.sp.expires < now then out == Err(Expired)
            else if p.sp.created > now + env.maxSkew then out == Err(FutureCreated)
            else if "content-digest" !in r.fields || r.fields["content-digest"] == "" then out == Err(MissingContentDigest)
            else if TrimSpace(r.fields["content-digest"]) != env.digest(r.body) then out == Err(DigestMismatch)
            else
              var agent := if "signature-agent" in r.fields then r.fields["signature-agent"] else "";
              match env.resolve(env.directory(agent), p.sp.keyId)
              case NotFound => out == Err(UnknownKey)
              case WrongLength => out == Err(BadKeyLength)
              case Found(_) => if BytesOk(env, r, p) then out.Ok? else out == Err(SignatureVerify)
  {
    CoverageIff(r, p.covered);
    if CoverageOk(r, p.covered) {
      BytesIff(env, r, p);
      assert Covers(p.covered, "content-digest") by { assert REQUIRED[2] == "content-digest"; }
    }
    hide Lower, Covers, Names, CoversRequired, CoversEntitlement, BaseOf, BytesOk, CoverageOk, TrimSpace;
  }

  /** What a refused request is refused for: its headers, then the hop bound, then
      the chain, then its first refused signature. */
  lemma RequestRefusedFor(env: Env, r: Request)
    ensures r.input.Absent? ==> VerifyMultisig(env, r) == Err(MissingSignatureInput)
    ensures !r.input.Absent? && r.signature.Absent? ==> VerifyMultisig(env, r) == Err(MissingSignature)
    ensures !r.input.Absent? && !r.signature.Absent? && !HeadersOk(r) ==> VerifyMultisig(env, r) == Err(MalformedSignatureInput)
    ensures HeadersOk(r) && 0 < env.maxSignatures < |r.input.value| ==> VerifyMultisig(env, r) == Err(TooManyHops)
    ensures HeadersOk(r) && (env.maxSignatures <= 0 || |r.input.value| <= env.maxSignatures) &&
            !(forall i | 0 <= i < |r.input.value| :: ChainOk(r.input.value[i], i)) ==>
              VerifyMultisig(env, r) == Err(BrokenSignatureChain)
    ensures HeadersOk(r) && (env.maxSignatures <= 0 || |r.input.value| <= env.maxSignatures) &&
            (forall i | 0 <= i < |r.input.value| :: ChainOk(r.input.value[i], i)) ==>
              forall k | 0 <= k < |r.input.value| &&
                         (forall i | 0 <= i < k :: SignatureOk(env, r, r.input.value[i], env.now(i))) &&
                         !SignatureOk(env, r, r.input.value[k], env.now(k)) ::
                var single := VerifySingle(env, r, r.input.value[k], env.now(k));
                single.Err? && VerifyMultisig(env, r) == Err(single.error)
  {
    hide VerifySingle, SignatureOk, Gate, ChainOk;
    if HeadersOk(r) {
      var ps := r.input.value;
      GateIsChain(ps);
      forall k | 0 <= k < |ps| && (forall i | 0 <= i < k :: SignatureOk(env, r, ps[i], env.now(i))) &&
                 !SignatureOk(env, r, ps[k], env.now(k))
        ensures VerifySingle(env, r, ps[k], env.now(k)).Err? &&
                VerifyEach(env, r, ps) == Err(VerifySingle(env, r, ps[k], env.now(k)).error)
      {
        FirstRefusal(env, r, ps, k);
      }
      hide VerifyEach;
    }
  }

  lemma FirstRefusal(env: Env, r: Request, ps: seq<Params>, k: nat)
    requires HeadersOk(r) && ps == r.input.value && k < |ps|
    requires (forall i | 0 <= i < k :: SignatureOk(env, r, ps[i], env.now(i))) && !SignatureOk(env, r, ps[k], env.now(k))
    ensures VerifySingle(env, r, ps[k], env.now(k)).Err?
    ensures VerifyEach(env, r, ps) == Err(VerifySingle(env, r, ps[k], env.now(k)).error)
  {
    hide VerifySingle, SignatureOk;
    forall i | 0 <= i <= k
      ensures VerifySingle(env, r, ps[i], env.now(i)).Ok? <==> SignatureOk(env, r, ps[i], env.now(i))
    {
      SingleIff(env, r, ps[i], env.now(i));
    }
    assert ps[..k + 1][..k] == ps[..k];
    EachVerified(env, r, ps[..k]);
    assert VerifyEach(env, r, ps[..k + 1]) == Err(VerifySingle(env, r, ps[k], env.now(k)).error);
    FailureSticks(env, r, ps, k + 1);
  }
}

/** The reference multi-signature verifier: parse, hop bound, chain gate, then
    every signature in Signature-Input order by one set of rules. */
module Verifier {
  import opened Text
  import opened Chain

  /** A structured header as the library parser hands it over. */
  datatype Header<+T> = Absent | Malformed | Parsed(value: T)

  /** fields gives the value of every component other than the two signature
      headers, header fields and derived components alike, by lower-case name. */
  datatype Request = Request(
    fields: map<string, string>, body: string,
    input: Header<seq<Params>>, signature: Header<map<string, SigBytes>>)

  datatype Error =
    | MissingSignatureInput | MissingSignature | MalformedSignatureInput
    | TooManyHops | BrokenSignatureChain | UnsupportedAlgorithm
    | MissingRequiredComponent | MissingCreated | MissingExpires | Expired | FutureCreated
    | MissingContentDigest | DigestMismatch | UnknownKey | BadKeyLength | SignatureVerify

  datatype Result<+T> = Ok(value: T) | Err(error: Error)

  datatype KeyAnswer = Found(key: Key) | WrongLength | NotFound

  /** How the signing library reads part of a component: its lower-case name, the
      whole value, and the parameters that select the part. For a dictionary
      field and a key parameter it is section 2.1.2 of RFC 9421. */
  type Select = (string, string, seq<ComponentParam>) -> Option<string>

  /** What the verifier is configured with: the key resolver (by Signature-Agent
      directory and key id), the digest header value of a body, the directory
      reader, the part reader, the unix second of the k-th clock reading, and the
      two limits. */
  datatype Env = Env(
    resolve: (string, string) -> KeyAnswer, digest: string -> string,
    directory: string -> string, select: Select, now: nat -> int, maxSkew: int, maxSignatures: int)

  const REQUIRED: seq<string> :=
    ["@method", "@target-uri", "content-digest", "authorization", "signature-agent"]
  const ENTITLEMENT := "x-ramp-entitlement-biscuit"

  /** http.Header.Get: the empty string when the field is missing. */
  function Get(r: Request, name: string): string {
    if name in r.fields then r.fields[name] else ""
  }

  function SigLabel(n: int): string { "sig" + Itoa(n) }

  predicate IsLink(c: Component) { Lower(c.name) == "signature" }

  predicate IsInput(c: Component) { Lower(c.name) == "signature-input" }

  function ParamOf(ps: seq<ComponentParam>, key: string): string {
    if ps == [] then "" else if ps[0].key == key then ps[0].val else ParamOf(ps[1..], key)
  }

  /** The key parameters of the covered "signature" components, in order. */
  function LinkKeys(covered: seq<Component>): seq<string> {
    if covered == [] then []
    else
      var rest := LinkKeys(covered[..|covered| - 1]);
      var c := covered[|covered| - 1];
      if IsLink(c) then rest + [ParamOf(c.params, "key")] else rest
  }

  predicate Covers(covered: seq<Component>, name: string) {
    exists i | 0 <= i < |covered| :: Lower(covered[i].name) == name
  }

  predicate CoversRequired(covered: seq<Component>) {
    forall i | 0 <= i < |REQUIRED| :: Covers(covered, REQUIRED[i])
  }

  predicate CoversEntitlement(r: Request, covered: seq<Component>) {
    Get(r, ENTITLEMENT) != "" ==> Covers(covered, ENTITLEMENT)
  }

  /** Labels are sig1..sigN in order; sig1 has no link, sigK exactly one, to sig(K-1). */
  predicate Gate(ps: seq<Params>) {
    forall i | 0 <= i < |ps| ::
      ps[i].labelText == SigLabel(i + 1) &&
      LinkKeys(ps[i].covered) == if i == 0 then [] else [SigLabel(i)]
  }

  /******* Signature base *******/

  function InputNamed(ps: seq<Params>, name: string): Option<Params> {
    if ps == [] then None else if ps[0].labelText == name then Some(ps[0]) else InputNamed(ps[1..], name)
  }

  /** The Signature-Input header, or the member a key parameter names. */
  function InputValue(ps: seq<Params>, c: Component): Option<LineValue> {
    if c.params == [] then Some(Inputs(ps))
    else
      var p := InputNamed(ps, ParamOf(c.params, "key"));
      if p.Some? then Some(Input(p.value)) else None
  }

  function ComponentValue(sel: Select, r: Request, c: Component): Option<LineValue> {
    if IsLink(c) then
      var key := ParamOf(c.params, "key");
      if r.signature.Parsed? && key in r.signature.value then Some(Member(r.signature.value[key])) else None
    else if IsInput(c) then
      if r.input.Parsed? then InputValue(r.input.value, c) else None
    else if Lower(c.name) !in r.fields then None
    else if c.params == [] then Some(Plain(r.fields[Lower(c.name)]))
    else
      var part := sel(Lower(c.name), r.fields[Lower(c.name)], c.params);
      if part.Some? then Some(Plain(part.value)) else None
  }

  predicate Resolvable(sel: Select, r: Request, covered: seq<Component>) {
    forall i | 0 <= i < |covered| :: ComponentValue(sel, r, covered[i]).Some?
  }

  function LinesOf(sel: Select, r: Request, covered: seq<Component>): seq<Line>
    requires Resolvable(sel, r, covered)
  {
    seq(|covered|, i requires 0 <= i < |covered| => Line(covered[i], ComponentValue(sel, r, covered[i]).value))
  }

  function BaseOf(sel: Select, r: Request, covered: seq<Component>, sp: SigParams): Option<Base> {
    if Resolvable(sel, r, covered) then Some(Base(LinesOf(sel, r, covered), sp)) else None
  }

  /******* One signature *******/

  function CheckWindow(sp: SigParams, now: int, maxSkew: int): Option<Error> {
    if sp.created == 0 then Some(MissingCreated)
    else if sp.expires == 0 then Some(MissingExpires)
    else if sp.expires < now then Some(Expired)
    else if sp.created > now + maxSkew then Some(FutureCreated)
    else None
  }

  function CheckDigest(env: Env, r: Request, covered: seq<Component>): Option<Error> {
    if !Covers(covered, "content-digest") then None
    else if Get(r, "content-digest") == "" then Some(MissingContentDigest)
    else if TrimSpace(Get(r, "content-digest")) != env.digest(r.body) then Some(DigestMismatch)
    else None
  }

  function Agent(env: Env, r: Request): string { env.directory(Get(r, "signature-agent")) }

  function VerifySingle(env: Env, r: Request, p: Params, now: int): Result<Verified>
    requires r.signature.Parsed?
  {
    if Lower(p.sp.alg) != "ed25519" then Err(UnsupportedAlgorithm)
    else if !CoversRequired(p.covered) then Err(MissingRequiredComponent)
    else if !CoversEntitlement(r, p.covered) then Err(MissingRequiredComponent)
    else if CheckWindow(p.sp, now, env.maxSkew).Some? then Err(CheckWindow(p.sp, now, env.maxSkew).value)
    else if CheckDigest(env, r, p.covered).Some? then Err(CheckDigest(env, r, p.covered).value)
    else
      match env.resolve(Agent(env, r), p.sp.keyId)
      case NotFound => Err(UnknownKey)
      case WrongLength => Err(BadKeyLength)
      case Found(pub) =>
        var base := BaseOf(env.select, r, p.covered, p.sp);
        if p.labelText !in r.signature.value then Err(MalformedSignatureInput)
        else if base.None? || r.signature.value[p.labelText] != Ed(pub, base.value) then Err(SignatureVerify)
        else Ok(Verified(p.sp.keyId, p.sp.alg, p.labelText, r.signature.value[p.labelText],
                         p.sp.created, p.sp.expires, pub, Agent(env, r)))
  }

  /******* The whole request *******/

  function Parse(r: Request): Result<seq<Params>> {
    if r.input.Absent? then Err(MissingSignatureInput)
    else if r.signature.Absent? then Err(MissingSignature)
    else if r.input.Malformed? || r.signature.Malformed? || r.input.value == [] then Err(MalformedSignatureInput)
    else if exists i | 0 <= i < |r.input.value| ::
      r.input.value[i].sp.keyId == "" || r.input.value[i].labelText !in r.signature.value
    then Err(MalformedSignatureInput)
    else Ok(r.input.value)
  }

  /** The first failure in label order, or every report. The k-th signature is
      judged at the k-th clock reading. */
  function VerifyEach(env: Env, r: Request, ps: seq<Params>): Result<seq<Verified>>
    requires r.signature.Parsed?
  {
    if ps == [] then Ok([])
    else
      match VerifyEach(env, r, ps[..|ps| - 1])
      case Err(e) => Err(e)
      case Ok(vs) =>
        match VerifySingle(env, r, ps[|ps| - 1], env.now(|ps| - 1))
        case Err(e) => Err(e)
        case Ok(v) => Ok(vs + [v])
  }

  function VerifyMultisig(env: Env, r: Request): Result<seq<Verified>> {
    match Parse(r)
    case Err(e) => Err(e)
    case Ok(ps) =>
      if env.maxSignatures > 0 && |ps| > env.maxSignatures then Err(TooManyHops)
      else if !Gate(ps) then Err(BrokenSignatureChain)
      else VerifyEach(env, r, ps)
  }

  /******* The loops *******/

  method ChainLink(covered: seq<Component>) returns (key: string, count: nat)
    ensures count == |LinkKeys(covered)|
    ensures key == if count == 0 then "" else LinkKeys(covered)[count - 1]
  {
    key, count := "", 0;
    for i := 0 to |covered|
      invariant count == |LinkKeys(covered[..i])|
      invariant key == if count == 0 then "" else LinkKeys(covered[..i])[count - 1]
    {
      assert covered[..i + 1][..i] == covered[..i];
      if Lower(covered[i].name) == "signature" {
        count := count + 1;
        key := ParamOf(covered[i].params, "key");
      }
    }
    assert covered[..|covered|] == covered;
  }

  method EnforceSignatureChain(ps: seq<Params>) returns (ok: bool)
    ensures ok <==> Gate(ps)
  {
    hide SigLabel;
    for i := 0 to |ps|
      invariant Gate(ps[..i])
    {
      if ps[i].labelText != SigLabel(i + 1) {
        return false;
      }
      var link, count := ChainLink(ps[i].covered);
      if i == 0 {
        if count != 0 {
          return false;
        }
      } else if count != 1 || link != SigLabel(i) {
        return false;
      } else {
        assert LinkKeys(ps[i].covered) == [SigLabel(i)];
      }
    }
    assert ps[..|ps|] == ps;
    return true;
  }

  method EnforceRequiredComponents(covered: seq<Component>) returns (ok: bool)
    ensures ok <==> CoversRequired(covered)
  {
    var seen: set<string> := {};
    for i := 0 to |covered|
      invariant seen == set k | 0 <= k < i :: Lower(covered[k].name)
    {
      seen := seen + {Lower(covered[i].name)};
    }
    for i := 0 to |REQUIRED|
      invariant forall k | 0 <= k < i :: Covers(covered, REQUIRED[k])
    {
      if REQUIRED[i] !in seen {
        assert !Covers(covered, REQUIRED[i]);
        return false;
      }
      assert Covers(covered, REQUIRED[i]);
    }
    return true;
  }

  method VerifyMultisigRequest(env: Env, r: Request) returns (out: Result<seq<Verified>>)
    ensures out == VerifyMultisig(env, r)
  {
    hide VerifySingle, Gate;
    var parsed := Parse(r);
    if parsed.Err? {
      return Err(parsed.error);
    }
    var ps := parsed.value;
    if env.maxSignatures > 0 && |ps| > env.maxSignatures {
      return Err(TooManyHops);
    }
    var linked := EnforceSignatureChain(ps);
    if !linked {
      return Err(BrokenSignatureChain);
    }
    var verified: seq<Verified> := [];
    for i := 0 to |ps|
      invariant VerifyEach(env, r, ps[..i]) == Ok(verified)
    {
      assert ps[..i + 1][..i] == ps[..i];
      var v := VerifySingle(env, r, ps[i], env.now(i));
      if v.Err? {
        FailureSticks(env, r, ps, i + 1);
        return Err(v.error);
      }
      verified := verified + [v.value];
    }
    assert ps[..|ps|] == ps;
    return Ok(verified);
  }

  lemma {:induction false} FailureSticks(env: Env, r: Request, ps: seq<Params>, n: nat)
    requires r.signature.Parsed? && n <= |ps| && VerifyEach(env, r, ps[..n]).Err?
    ensures VerifyEach(env, r, ps) == VerifyEach(env, r, ps[..n])
    decreases |ps|
  {
    if n == |ps| {
      assert ps[..n] == ps;
    } else {
      assert ps[..|ps| - 1][..n] == ps[..n];
      FailureSticks(env, r, ps[..|ps| - 1], n);
    }
  }

  /******* What acceptance means *******/

  lemma {:induction false} EachVerified(env: Env, r: Request, ps: seq<Params>)
    requires r.signature.Parsed?
    ensures VerifyEach(env, r, ps).Ok? <==>
            forall i | 0 <= i < |ps| :: VerifySingle(env, r, ps[i], env.now(i)).Ok?
    ensures VerifyEach(env, r, ps).Ok? ==>
            |VerifyEach(env, r, ps).value| == |ps| &&
            forall i | 0 <= i < |ps| :: VerifySingle(env, r, ps[i], env.now(i)) == Ok(VerifyEach(env, r, ps).value[i])
  {
    if ps == [] {
    } else {
      var n := |ps| - 1;
      EachVerified(env, r, ps[..n]);
      assert forall i | 0 <= i < n :: ps[..n][i] == ps[i];
      if VerifyEach(env, r, ps).Err? && VerifyEach(env, r, ps[..n]).Ok? {
        assert VerifySingle(env, r, ps[n], env.now(n)).Err?;
      }
    }
  }

  /** The signatures a base commits to are the members its link keys name. */
  lemma {:induction false} CommittedByLinks(sel: Select, r: Request, covered: seq<Component>)
    requires r.signature.Parsed? && Resolvable(sel, r, covered)
    ensures |Committed(LinesOf(sel, r, covered))| == |LinkKeys(covered)|
    ensures forall i | 0 <= i < |LinkKeys(covered)| ::
              LinkKeys(covered)[i] in r.signature.value &&
              Committed(LinesOf(sel, r, covered))[i] == r.signature.value[LinkKeys(covered)[i]]
  {
    if covered == [] {
    } else {
      var n := |covered| - 1;
      CommittedByLinks(sel, r, covered[..n]);
      assert LinesOf(sel, r, covered)[..n] == LinesOf(sel, r, covered[..n]);
      assert ComponentValue(sel, r, covered[n]).Some?;
    }
  }

  /** What one successful check establishes. */
  lemma SingleFacts(env: Env, r: Request, p: Params, now: int)
    requires r.signature.Parsed? && VerifySingle(env, r, p, now).Ok?
    ensures var v := VerifySingle(env, r, p, now).value;
            && Signed(v) && v.labelText == p.labelText
            && p.labelText in r.signature.value && v.signature == r.signature.value[p.labelText]
            && BaseOf(env.select, r, p.covered, p.sp).Some? && v.signature.base == BaseOf(env.select, r, p.covered, p.sp).value
    ensures CoversRequired(p.covered) && CoversEntitlement(r, p.covered)
    ensures CheckDigest(env, r, p.covered).None?
  {
    hide CoversRequired, CoversEntitlement, CheckDigest, CheckWindow, Resolvable, LinesOf, Lower;
  }

  lemma LinkOf(sel: Select, r: Request, p: Params, prev: string)
    requires r.signature.Parsed? && Resolvable(sel, r, p.covered) && LinkKeys(p.covered) == [prev]
    ensures prev in r.signature.value && Committed(LinesOf(sel, r, p.covered)) == [r.signature.value[prev]]
  {
    CommittedByLinks(sel, r, p.covered);
    assert LinkKeys(p.covered)[0] == prev;
  }

  lemma AcceptedParts(env: Env, r: Request)
    requires VerifyMultisig(env, r).Ok?
    ensures r.signature.Parsed? && r.input.Parsed? && Parse(r) == Ok(r.input.value) && |r.input.value| >= 1
    ensures Gate(r.input.value) && VerifyMultisig(env, r) == VerifyEach(env, r, r.input.value)
    ensures env.maxSignatures > 0 ==> |r.input.value| <= env.maxSignatures
  {
    hide Gate, VerifyEach;
  }

  /** Every accepted request reports a linked chain, in label order, and every
      reported signature is the one the request carries under its label. */
  lemma AcceptedIsLinked(env: Env, r: Request)
    requires VerifyMultisig(env, r).Ok?
    ensures var vs := VerifyMultisig(env, r).value;
            && r.signature.Parsed? && Parse(r).Ok? && |vs| == |Parse(r).value| >= 1 && Linked(vs)
            && (forall i | 0 <= i < |vs| :: vs[i].labelText == SigLabel(i + 1))
            && (forall i | 0 <= i < |vs| ::
                  VerifySingle(env, r, Parse(r).value[i], env.now(i)) == Ok(vs[i]))
  {
    hide SigLabel, VerifySingle, Parse, VerifyMultisig;
    AcceptedParts(env, r);
    var ps := Parse(r).value;
    EachVerified(env, r, ps);
    var vs := VerifyMultisig(env, r).value;
    forall i | 0 <= i < |vs|
      ensures LinkedAt(vs, i) && vs[i].labelText == SigLabel(i + 1)
    {
      assert ps[i].labelText == SigLabel(i + 1);
      ChecksOutAt(env, r, ps, vs, i);
    }
  }

  lemma ChecksOutAt(env: Env, r: Request, ps: seq<Params>, vs: seq<Verified>, i: nat)
    requires r.signature.Parsed? && i < |ps| == |vs| && Gate(ps)
    requires forall k | 0 <= k < |ps| :: VerifySingle(env, r, ps[k], env.now(k)) == Ok(vs[k])
    ensures LinkedAt(vs, i) && vs[i].labelText == ps[i].labelText
  {
    hide SigLabel, VerifySingle;
    SingleFacts(env, r, ps[i], env.now(i));
    if i == 0 {
      CommittedByLinks(env.select, r, ps[i].covered);
    } else {
      SingleFacts(env, r, ps[i - 1], env.now(i - 1));
      LinkOf(env.select, r, ps[i], ps[i - 1].labelText);
    }
  }

  /** What the kept signatures read of Signature-Input is still there: the whole
      header only if nothing was cut, a member only if it was kept. */
  predicate InputKept(all: seq<Params>, ps: seq<Params>) {
    forall k, j | 0 <= k < |ps| && 0 <= j < |ps[k].covered| && IsInput(ps[k].covered[j]) ::
      var c := ps[k].covered[j];
      if c.params == [] then ps == all else InputNamed(ps, ParamOf(c.params, "key")).Some?
  }

  /** Rearranging an accepted chain: any list drawn from its Signature-Input
      members, in any order and with any deletions or repetitions, is accepted
      exactly when it is a non-empty prefix that keeps what its signatures read of
      the header itself. */
  lemma RearrangedChain(env: Env, r: Request, ps: seq<Params>)
    requires VerifyMultisig(env, r).Ok?
    requires forall i | 0 <= i < |ps| :: ps[i] in r.input.value
    ensures VerifyMultisig(env, r.(input := Parsed(ps))).Ok? <==>
            ps != [] && ps <= r.input.value && InputKept(r.input.value, ps)
  {
    hide SigLabel, VerifySingle, VerifyEach, InputKept;
    if ps != [] && ps <= r.input.value && InputKept(r.input.value, ps) {
      PrefixAccepted(env, r, ps);
    } else if VerifyMultisig(env, r.(input := Parsed(ps))).Ok? {
      InPlace(r.input.value, ps);
      AcceptedKeepsInput(env, r, ps);
    }
  }

  lemma InPlaceAt(all: seq<Params>, ps: seq<Params>, i: nat)
    requires Gate(all) && Gate(ps) && i < |ps| && ps[i] in all
    ensures i < |all| && ps[i] == all[i]
  {
    hide SigLabel, LinkKeys;
    var k :| 0 <= k < |all| && ps[i] == all[k];
    assert all[k].labelText == SigLabel(k + 1) && ps[i].labelText == SigLabel(i + 1);
    SigLabelInjective(i + 1, k + 1);
  }

  lemma InPlace(all: seq<Params>, ps: seq<Params>)
    requires Gate(all) && Gate(ps)
    requires forall i | 0 <= i < |ps| :: ps[i] in all
    ensures ps <= all
  {
    hide Gate;
    forall i | 0 <= i < |ps|
      ensures i < |all| && ps[i] == all[i]
    {
      assert ps[i] in all;
      InPlaceAt(all, ps, i);
    }
    if ps != [] {
      var last := ps[|ps| - 1];
      assert |ps| <= |all|;
    }
    assert ps == all[..|ps|];
  }

  lemma SigLabelInjective(m: nat, n: nat)
    ensures SigLabel(m) == SigLabel(n) ==> m == n
  {
    if SigLabel(m) == SigLabel(n) {
      assert SigLabel(m)[3..] == SigLabel(n)[3..];
      DecimalInjective(m, n);
    }
  }

  lemma {:induction false} NamedInPrefix(all: seq<Params>, ps: seq<Params>, name: string)
    requires ps <= all
    ensures InputNamed(ps, name).Some? ==> InputNamed(all, name) == InputNamed(ps, name)
  {
    if ps == [] {
    } else {
      NamedInPrefix(all[1..], ps[1..], name);
    }
  }

  lemma PrefixAccepted(env: Env, r: Request, ps: seq<Params>)
    requires VerifyMultisig(env, r).Ok? && ps != [] && ps <= r.input.value && InputKept(r.input.value, ps)
    ensures VerifyMultisig(env, r.(input := Parsed(ps))).Ok?
  {
    hide SigLabel, VerifySingle, InputKept;
    AcceptedIsLinked(env, r);
    var r' := r.(input := Parsed(ps));
    assert Parse(r') == Ok(ps);
    assert Gate(ps);
    forall i | 0 <= i < |ps|
      ensures VerifySingle(env, r', ps[i], env.now(i)).Ok?
    {
      assert VerifySingle(env, r, r.input.value[i], env.now(i)).Ok?;
      SameInputs(r.input.value, ps, i);
      SameVerdict(env, r, r', ps[i], env.now(i));
    }
    EachVerified(env, r', ps);
  }

  /** A signature reads the same of two Signature-Input lists. */
  predicate ReadsSameInput(all: seq<Params>, ps: seq<Params>, covered: seq<Component>) {
    forall j | 0 <= j < |covered| && IsInput(covered[j]) :: InputValue(ps, covered[j]) == InputValue(all, covered[j])
  }

  lemma SameInputs(all: seq<Params>, ps: seq<Params>, k: nat)
    requires ps <= all && InputKept(all, ps) && k < |ps|
    ensures ReadsSameInput(all, ps, ps[k].covered)
  {
    hide IsInput;
    var covered := ps[k].covered;
    forall j | 0 <= j < |covered| && IsInput(covered[j])
      ensures InputValue(ps, covered[j]) == InputValue(all, covered[j])
    {
      NamedInPrefix(all, ps, ParamOf(covered[j].params, "key"));
    }
  }

  /** The converse: a signature accepted over both lists reads the same of both. */
  lemma AcceptedKeepsInput(env: Env, r: Request, ps: seq<Params>)
    requires VerifyMultisig(env, r).Ok? && r.input.Parsed? && ps <= r.input.value
    requires VerifyMultisig(env, r.(input := Parsed(ps))).Ok?
    ensures InputKept(r.input.value, ps)
  {
    hide SigLabel, VerifySingle, Gate, IsInput;
    var r', all := r.(input := Parsed(ps)), r.input.value;
    AcceptedIsLinked(env, r);
    AcceptedIsLinked(env, r');
    forall k, j | 0 <= k < |ps| && 0 <= j < |ps[k].covered| && IsInput(ps[k].covered[j])
      ensures var c := ps[k].covered[j];
              if c.params == [] then ps == all else InputNamed(ps, ParamOf(c.params, "key")).Some?
    {
      SingleFacts(env, r, all[k], env.now(k));
      SingleFacts(env, r', ps[k], env.now(k));
      SameLine(env.select, r, r', ps[k].covered, ps[k].sp, j);
      InputIsNoLink(ps[k].covered[j]);
    }
  }

  lemma InputIsNoLink(c: Component)
    requires IsInput(c)
    ensures !IsLink(c)
  {
    assert |"signature-input"| != |"signature"|;
  }

  /** Two requests over which one covered set gives the same base agree line by line. */
  lemma SameLine(sel: Select, r: Request, r': Request, covered: seq<Component>, sp: SigParams, j: nat)
    requires BaseOf(sel, r, covered, sp).Some? && BaseOf(sel, r, covered, sp) == BaseOf(sel, r', covered, sp) && j < |covered|
    ensures ComponentValue(sel, r, covered[j]).Some? && ComponentValue(sel, r, covered[j]) == ComponentValue(sel, r', covered[j])
  {
    hide ComponentValue;
    assert LinesOf(sel, r, covered)[j] == LinesOf(sel, r', covered)[j];
  }

  /** A signature is judged by the fields, the body, the Signature header and what
      it reads of Signature-Input. */
  lemma SameVerdict(env: Env, r: Request, r': Request, p: Params, now: int)
    requires r.signature.Parsed? && r'.fields == r.fields && r'.body == r.body && r'.signature == r.signature
    requires r.input.Parsed? && r'.input.Parsed? && ReadsSameInput(r.input.value, r'.input.value, p.covered)
    ensures VerifySingle(env, r', p, now) == VerifySingle(env, r, p, now)
  {
    hide CoversRequired, Covers, CheckWindow, Lower, IsLink, IsInput, ParamOf, InputValue;
    assert forall j | 0 <= j < |p.covered| ::
        ComponentValue(env.select, r, p.covered[j]) == ComponentValue(env.select, r', p.covered[j]);
    assert BaseOf(env.select, r, p.covered, p.sp) == BaseOf(env.select, r', p.covered, p.sp) by {
      if Resolvable(env.select, r, p.covered) {
        assert LinesOf(env.select, r, p.covered) == LinesOf(env.select, r', p.covered);
      }
    }
  }
}

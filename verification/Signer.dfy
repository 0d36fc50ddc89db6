/** Appending co-signatures: each relay signs the RAMP covered set plus a link
    to the signature before it, under the next sigN label. */
module Signer {
  import opened Text
  import opened Chain
  import opened Verifier

  /** One signer: its key id, private key, and the window it stamps. */
  datatype Hop = Hop(keyId: string, key: Key, created: int, expires: int)

  /** The signer names whole components and links, and reads no part of a field. */
  function NoParts(name: string, value: string, ps: seq<ComponentParam>): Option<string> { None }

  function Lookup(fields: map<string, string>, name: string): string {
    if name in fields then fields[name] else ""
  }

  function SetIfEmpty(fields: map<string, string>, name: string, value: string): map<string, string> {
    if Lookup(fields, name) == "" then fields[name := value] else fields
  }

  /** Content-Digest computed when missing, Authorization and Signature-Agent
      bound even when empty. */
  function Bind(fields: map<string, string>, digest: string): map<string, string> {
    SetIfEmpty(SetIfEmpty(SetIfEmpty(fields, "content-digest", digest), "authorization", ""), "signature-agent", "")
  }

  function Plains(names: seq<string>): (cs: seq<Component>)
    ensures |cs| == |names|
    ensures forall i | 0 <= i < |names| :: cs[i] == Component(names[i], [])
  {
    seq(|names|, i requires 0 <= i < |names| => Component(names[i], []))
  }

  function RampNames(fields: map<string, string>): seq<string> {
    if Lookup(fields, ENTITLEMENT) != "" then REQUIRED + [ENTITLEMENT] else REQUIRED
  }

  function Link(prev: string): Component { Component("signature", [ComponentParam("key", prev)]) }

  /** The covered set of the signature appended after `count` others. */
  function ChainCovered(fields: map<string, string>, count: int): seq<Component> {
    Plains(RampNames(fields)) + if count > 0 then [Link(SigLabel(count))] else []
  }

  function LabelNumber(s: string): int {
    if "sig" <= s && Atoi(s[3..]).Some? then Atoi(s[3..]).value else 0
  }

  /** The highest N among the sigN labels, 0 when there is none. */
  function MaxLabel(ps: seq<Params>): (n: int)
    ensures n >= 0
  {
    if ps == [] then 0
    else
      var rest := MaxLabel(ps[..|ps| - 1]);
      var n := LabelNumber(ps[|ps| - 1].labelText);
      if n > rest then n else rest
  }

  method MaxSignatureLabelN(ps: seq<Params>) returns (maxN: int)
    ensures maxN == MaxLabel(ps)
    ensures forall i | 0 <= i < |ps| :: LabelNumber(ps[i].labelText) <= maxN
    ensures maxN == 0 || exists i | 0 <= i < |ps| :: LabelNumber(ps[i].labelText) == maxN
  {
    hide LabelNumber;
    maxN := 0;
    for i := 0 to |ps|
      invariant maxN == MaxLabel(ps[..i])
      invariant forall k | 0 <= k < i :: LabelNumber(ps[k].labelText) <= maxN
      invariant maxN == 0 || exists k | 0 <= k < i :: LabelNumber(ps[k].labelText) == maxN
    {
      assert ps[..i + 1][..i] == ps[..i];
      var num := LabelNumber(ps[i].labelText);
      if num > maxN {
        maxN := num;
      }
    }
    assert ps[..|ps|] == ps;
  }

  /** A dictionary keeps a repeated member at its first position, last value. */
  function Put(ps: seq<Params>, p: Params): seq<Params> {
    if ps == [] then [p]
    else if ps[0].labelText == p.labelText then [p] + ps[1..]
    else [ps[0]] + Put(ps[1..], p)
  }

  function SignedParams(h: Hop): SigParams { SigParams(h.keyId, "ed25519", h.created, h.expires, "", "") }

  /** AppendSignatureRAMP; None is a refusal. The label counter is a 64-bit int
      and wraps. */
  function Append(r: Request, h: Hop, digest: string -> string): Option<Request> {
    if r.input.Malformed? then None
    else
      var bound := r.(fields := Bind(r.fields, digest(r.body)));
      var ps := if r.input.Parsed? then r.input.value else [];
      var maxN := MaxLabel(ps);
      var p := Params(SigLabel(Wrap64(maxN + 1)), ChainCovered(bound.fields, maxN), SignedParams(h));
      match BaseOf(NoParts, bound, p.covered, p.sp)
      case None => None
      case Some(base) =>
        var sigs: Header<map<string, SigBytes>> :=
          match r.signature
          case Malformed => Malformed
          case Absent => Parsed(map[p.labelText := Ed(h.key, base)])
          case Parsed(m) => Parsed(m[p.labelText := Ed(h.key, base)]);
        Some(bound.(input := Parsed(Put(ps, p)), signature := sigs))
  }

  function AppendAll(r: Request, hops: seq<Hop>, digest: string -> string): Option<Request> {
    if hops == [] then Some(r)
    else
      match AppendAll(r, hops[..|hops| - 1], digest)
      case None => None
      case Some(r') => Append(r', hops[|hops| - 1], digest)
  }

  /******* Labels and covered sets *******/

  lemma LabelNumberOf(n: int)
    ensures LabelNumber(SigLabel(n)) == if InInt64(n) then n else 0
  {
    assert SigLabel(n)[..3] == "sig" && SigLabel(n)[3..] == Itoa(n);
    AtoiItoa(n);
  }

  lemma {:induction false} MaxLabelOfChain(ps: seq<Params>)
    requires |ps| < TWO63
    requires forall i | 0 <= i < |ps| :: ps[i].labelText == SigLabel(i + 1)
    ensures MaxLabel(ps) == |ps|
  {
    hide SigLabel, LabelNumber;
    if ps == [] {
    } else {
      MaxLabelOfChain(ps[..|ps| - 1]);
      LabelNumberOf(|ps|);
    }
  }

  lemma {:induction false} PutFresh(ps: seq<Params>, p: Params)
    requires forall i | 0 <= i < |ps| :: ps[i].labelText != p.labelText
    ensures Put(ps, p) == ps + [p]
  {
    if ps == [] {
    } else {
      PutFresh(ps[1..], p);
      assert ps == [ps[0]] + ps[1..];
    }
  }

  lemma NamesAreNotLinks(fields: map<string, string>, i: nat)
    requires i < |RampNames(fields)|
    ensures Lower(RampNames(fields)[i]) == RampNames(fields)[i] != "signature"
    ensures RampNames(fields)[i] != "signature-input"
  {
    var s := RampNames(fields)[i];
    assert Lower(s) == s;
    assert |s| != 9 && (|s| != 15 || s[10] == 'a');
  }

  lemma {:induction false} PlainsHaveNoLinks(cs: seq<Component>)
    requires forall i | 0 <= i < |cs| :: !IsLink(cs[i])
    ensures LinkKeys(cs) == []
  {
    hide IsLink;
    if cs == [] {
    } else {
      PlainsHaveNoLinks(cs[..|cs| - 1]);
    }
  }

  /** The covered set of the k-th signature passes the gate's and the coverage rules. */
  lemma CoveredShape(fields: map<string, string>, count: nat)
    ensures LinkKeys(ChainCovered(fields, count)) == if count == 0 then [] else [SigLabel(count)]
    ensures CoversRequired(ChainCovered(fields, count))
    ensures Lookup(fields, ENTITLEMENT) != "" ==> Covers(ChainCovered(fields, count), ENTITLEMENT)
  {
    hide SigLabel, Lower;
    var names := RampNames(fields);
    var cs := Plains(names);
    var all := ChainCovered(fields, count);
    forall i | 0 <= i < |names|
      ensures !IsLink(cs[i]) && Lower(all[i].name) == names[i]
    {
      NamesAreNotLinks(fields, i);
    }
    PlainsHaveNoLinks(cs);
    if count > 0 {
      assert all[..|all| - 1] == cs;
    } else {
      assert all == cs;
    }
    forall i | 0 <= i < |REQUIRED|
      ensures Covers(all, REQUIRED[i])
    {
      assert Lower(all[i].name) == REQUIRED[i];
    }
    if Lookup(fields, ENTITLEMENT) != "" {
      assert Lower(all[|REQUIRED|].name) == ENTITLEMENT;
    }
  }

  /******* Building the chain *******/

  predicate Unsigned(r: Request) {
    r.input.Absent? && r.signature.Absent? && "@method" in r.fields && "@target-uri" in r.fields
  }

  function Bound(r: Request, digest: string -> string): map<string, string> {
    Bind(r.fields, digest(r.body))
  }

  function Entry(fields: map<string, string>, hops: seq<Hop>, i: nat): Params
    requires i < |hops|
  {
    Params(SigLabel(i + 1), ChainCovered(fields, i), SignedParams(hops[i]))
  }

  predicate EntryAt(r: Request, hops: seq<Hop>, i: nat)
    requires i < |hops| && r.input.Parsed? && r.signature.Parsed? && |r.input.value| == |hops|
  {
    var p := Entry(r.fields, hops, i);
    && r.input.value[i] == p
    && BaseOf(NoParts, r, p.covered, p.sp).Some?
    && p.labelText in r.signature.value
    && r.signature.value[p.labelText] == Ed(hops[i].key, BaseOf(NoParts, r, p.covered, p.sp).value)
  }

  /** r is r0 with the hops' signatures on it, in order, and nothing else changed. */
  predicate Built(r0: Request, hops: seq<Hop>, digest: string -> string, r: Request) {
    if hops == [] then r == r0
    else
      && r.body == r0.body && r.fields == Bound(r0, digest)
      && r.input.Parsed? && r.signature.Parsed? && |r.input.value| == |hops|
      && forall i | 0 <= i < |hops| :: EntryAt(r, hops, i)
  }

  lemma BindIdempotent(fields: map<string, string>, digest: string)
    ensures Bind(Bind(fields, digest), digest) == Bind(fields, digest)
    ensures forall i | 2 <= i < |REQUIRED| :: REQUIRED[i] in Bind(fields, digest)
    ensures forall n | n in fields :: n in Bind(fields, digest)
  {
  }

  /** Signing keeps the body and every field that has a value; the only fields it can
      add are the three it binds, and the digest it adds is the body's. */
  predicate Keeps(r0: Request, r: Request, digest: string -> string) {
    && r.body == r0.body
    && (forall n | n in r0.fields && r0.fields[n] != "" :: n in r.fields && r.fields[n] == r0.fields[n])
    && (forall n | n in r.fields && (n !in r0.fields || r0.fields[n] == "") ::
          r.fields[n] == "" || (n == "content-digest" && r.fields[n] == digest(r0.body)))
    && (forall n | n in r.fields && n !in r0.fields :: n in {"content-digest", "authorization", "signature-agent"})
  }

  lemma AppendKeeps(r: Request, h: Hop, digest: string -> string)
    requires Append(r, h, digest).Some?
    ensures Keeps(r, Append(r, h, digest).value, digest)
    ensures var fields := Append(r, h, digest).value.fields;
            && {"content-digest", "authorization", "signature-agent"} <= fields.Keys
            && ("content-digest" !in r.fields || r.fields["content-digest"] == "" ==>
                  fields["content-digest"] == digest(r.body))
  {
    hide BaseOf, ChainCovered, SigLabel, MaxLabel, Put;
  }

  lemma {:induction false} SigningKeepsFields(r0: Request, hops: seq<Hop>, digest: string -> string)
    requires AppendAll(r0, hops, digest).Some?
    ensures Keeps(r0, AppendAll(r0, hops, digest).value, digest)
  {
    hide Append;
    if hops == [] {
    } else {
      var init, h := hops[..|hops| - 1], hops[|hops| - 1];
      SigningKeepsFields(r0, init, digest);
      AppendKeeps(AppendAll(r0, init, digest).value, h, digest);
    }
  }

  /** Every plain component of the covered set has a value. */
  lemma NamesResolve(r0: Request, digest: string -> string, r: Request, i: nat)
    requires Unsigned(r0) && r.fields == Bound(r0, digest) && i < |RampNames(r.fields)|
    ensures ComponentValue(NoParts, r, Component(RampNames(r.fields)[i], [])).Some?
  {
    BindIdempotent(r0.fields, digest(r0.body));
    NamesAreNotLinks(r.fields, i);
  }

  lemma CoveredResolves(r0: Request, digest: string -> string, r: Request, count: nat)
    requires Unsigned(r0) && r.fields == Bound(r0, digest)
    requires count > 0 ==> r.signature.Parsed? && SigLabel(count) in r.signature.value
    ensures Resolvable(NoParts, r, ChainCovered(r.fields, count))
  {
    hide SigLabel, ComponentValue, Bind, RampNames;
    var cs := Plains(RampNames(r.fields));
    var all := ChainCovered(r.fields, count);
    forall i | 0 <= i < |all|
      ensures ComponentValue(NoParts, r, all[i]).Some?
    {
      if i < |cs| {
        NamesResolve(r0, digest, r, i);
      } else {
        LinkResolves(r, SigLabel(count));
      }
    }
  }

  lemma LinkResolves(r: Request, prev: string)
    requires r.signature.Parsed? && prev in r.signature.value
    ensures ComponentValue(NoParts, r, Link(prev)) == Some(Member(r.signature.value[prev]))
  {
    hide Lower;
  }

  /** Adding a later label leaves every earlier base as it was. */
  lemma BaseStable(r: Request, r': Request, count: nat, sp: SigParams, added: string)
    requires r'.fields == r.fields && r.signature.Parsed? && r'.signature.Parsed?
    requires r'.signature.value.Keys == r.signature.value.Keys + {added}
    requires forall l | l in r.signature.value && l != added :: r'.signature.value[l] == r.signature.value[l]
    requires count > 0 ==> SigLabel(count) in r.signature.value && SigLabel(count) != added
    ensures BaseOf(NoParts, r, ChainCovered(r.fields, count), sp) == BaseOf(NoParts, r', ChainCovered(r.fields, count), sp)
            || BaseOf(NoParts, r, ChainCovered(r.fields, count), sp).None?
  {
    hide SigLabel, ComponentValue, RampNames;
    var cs := Plains(RampNames(r.fields));
    var all := ChainCovered(r.fields, count);
    forall i | 0 <= i < |all|
      ensures ComponentValue(NoParts, r', all[i]) == ComponentValue(NoParts, r, all[i])
    {
      if i < |cs| {
        PlainValueStable(r, r', i);
      } else {
        LinkResolves(r, SigLabel(count));
        LinkResolves(r', SigLabel(count));
      }
    }
    if Resolvable(NoParts, r, all) {
      assert LinesOf(NoParts, r, all) == LinesOf(NoParts, r', all);
    }
  }

  lemma PlainValueStable(r: Request, r': Request, i: nat)
    requires r'.fields == r.fields && i < |RampNames(r.fields)|
    ensures ComponentValue(NoParts, r', Component(RampNames(r.fields)[i], [])) ==
            ComponentValue(NoParts, r, Component(RampNames(r.fields)[i], []))
  {
    NamesAreNotLinks(r.fields, i);
  }

  lemma FirstAppend(r0: Request, h: Hop, digest: string -> string)
    requires Unsigned(r0)
    ensures Append(r0, h, digest).Some? && Built(r0, [h], digest, Append(r0, h, digest).value)
  {
    hide SigLabel, Bind, ChainCovered, ComponentValue;
    var bound := r0.(fields := Bound(r0, digest));
    CoveredResolves(r0, digest, bound, 0);
    var r := Append(r0, h, digest).value;
    SameLines(bound, r, ChainCovered(bound.fields, 0), r0, digest);
    assert EntryAt(r, [h], 0);
  }

  lemma SameLines(r: Request, r': Request, covered: seq<Component>, r0: Request, digest: string -> string)
    requires r'.fields == r.fields && covered == ChainCovered(r.fields, 0)
    ensures Resolvable(NoParts, r, covered) <==> Resolvable(NoParts, r', covered)
    ensures Resolvable(NoParts, r, covered) ==> LinesOf(NoParts, r, covered) == LinesOf(NoParts, r', covered)
  {
    hide ComponentValue, RampNames;
    forall i | 0 <= i < |covered|
      ensures ComponentValue(NoParts, r', covered[i]) == ComponentValue(NoParts, r, covered[i])
    {
      PlainValueStable(r, r', i);
    }
  }

  lemma LaterAppend(r0: Request, hops: seq<Hop>, h: Hop, digest: string -> string, r: Request)
    requires Unsigned(r0) && hops != [] && |hops| < TWO63 - 1 && Built(r0, hops, digest, r)
    ensures Append(r, h, digest).Some? && Built(r0, hops + [h], digest, Append(r, h, digest).value)
  {
    hide SigLabel, Bind, ChainCovered, ComponentValue, BaseOf;
    var n := |hops|;
    var ps := r.input.value;
    forall i | 0 <= i < n
      ensures ps[i] == Entry(r.fields, hops, i) && ps[i].labelText in r.signature.value
      ensures ps[i].labelText != SigLabel(n + 1)
    {
      assert EntryAt(r, hops, i);
      SigLabelInjective(i + 1, n + 1);
    }
    assert ps[n - 1].labelText == SigLabel(n);
    MaxLabelOfChain(ps);
    BindIdempotent(r0.fields, digest(r0.body));
    CoveredResolves(r0, digest, r, n);
    assert BaseOf(NoParts, r, ChainCovered(r.fields, n), SignedParams(h)).Some? by { BaseWhenResolvable(r, n, SignedParams(h)); }
    var p := Entry(r.fields, hops + [h], n);
    PutFresh(ps, p);
    var r' := Append(r, h, digest).value;
    assert r'.input == Parsed(ps + [p]);
    forall i | 0 <= i < n + 1
      ensures EntryAt(r', hops + [h], i)
    {
      EntryKept(r, hops, h, r', i);
    }
  }

  lemma BaseWhenResolvable(r: Request, count: nat, sp: SigParams)
    ensures BaseOf(NoParts, r, ChainCovered(r.fields, count), sp).Some? <==> Resolvable(NoParts, r, ChainCovered(r.fields, count))
  {
  }

  lemma EntryKept(r: Request, hops: seq<Hop>, h: Hop, r': Request, i: nat)
    requires hops != [] && r.input.Parsed? && r.signature.Parsed? && |r.input.value| == |hops| && i <= |hops|
    requires forall k | 0 <= k < |hops| :: EntryAt(r, hops, k)
    requires var p := Entry(r.fields, hops + [h], |hops|);
             && BaseOf(NoParts, r, p.covered, p.sp).Some?
             && r'.fields == r.fields && r'.input == Parsed(r.input.value + [p])
             && r'.signature == Parsed(r.signature.value[p.labelText := Ed(h.key, BaseOf(NoParts, r, p.covered, p.sp).value)])
    ensures EntryAt(r', hops + [h], i)
  {
    hide SigLabel, ChainCovered, BaseOf;
    var n := |hops|;
    if i > 0 {
      assert EntryAt(r, hops, i - 1);
      SigLabelInjective(i, n + 1);
    }
    if i < n {
      assert EntryAt(r, hops, i);
      SigLabelInjective(i + 1, n + 1);
    }
    var p := Entry(r.fields, hops + [h], i);
    BaseStable(r, r', i, p.sp, SigLabel(n + 1));
  }

  /** n appends to an unsigned request succeed and build the n-hop chain. */
  lemma {:induction false} AppendsBuild(r0: Request, hops: seq<Hop>, digest: string -> string)
    requires Unsigned(r0) && |hops| < TWO63
    ensures AppendAll(r0, hops, digest).Some? && Built(r0, hops, digest, AppendAll(r0, hops, digest).value)
  {
    hide Append, Built;
    if hops == [] {
      assert Built(r0, [], digest, r0) by { BuiltFromNothing(r0, digest); }
    } else {
      var init, h := hops[..|hops| - 1], hops[|hops| - 1];
      AppendsBuild(r0, init, digest);
      assert hops == init + [h];
      if init == [] {
        FirstAppend(r0, h, digest);
        BuiltFromNothing(r0, digest);
      } else {
        LaterAppend(r0, init, h, digest, AppendAll(r0, init, digest).value);
      }
    }
  }

  lemma BuiltFromNothing(r0: Request, digest: string -> string)
    ensures Built(r0, [], digest, r0)
    ensures AppendAll(r0, [], digest) == Some(r0)
  {
  }

  /******* The chain verifies *******/

  /** n appends, by any keys, pass the chain gate and both coverage rules. */
  lemma AppendedChainPasses(r0: Request, hops: seq<Hop>, digest: string -> string)
    requires Unsigned(r0) && 1 <= |hops| < TWO63
    ensures AppendAll(r0, hops, digest).Some?
    ensures var r := AppendAll(r0, hops, digest).value;
            && r.input.Parsed? && |r.input.value| == |hops| && Gate(r.input.value)
            && forall i | 0 <= i < |hops| ::
                 CoversRequired(r.input.value[i].covered) && CoversEntitlement(r, r.input.value[i].covered)
  {
    hide SigLabel, ChainCovered, CoversRequired, Covers, BaseOf;
    AppendsBuild(r0, hops, digest);
    var r := AppendAll(r0, hops, digest).value;
    forall i | 0 <= i < |hops|
      ensures r.input.value[i].labelText == SigLabel(i + 1)
      ensures LinkKeys(r.input.value[i].covered) == if i == 0 then [] else [SigLabel(i)]
      ensures CoversRequired(r.input.value[i].covered) && CoversEntitlement(r, r.input.value[i].covered)
    {
      assert EntryAt(r, hops, i);
      CoveredShape(r.fields, i);
    }
  }

  /** The verifier knows every hop's key, finds its window fresh at its own
      reading, and computes the digest the request carries. */
  predicate Trusts(env: Env, r: Request, hops: seq<Hop>) {
    && Get(r, "content-digest") != "" && TrimSpace(Get(r, "content-digest")) == env.digest(r.body)
    && forall i | 0 <= i < |hops| ::
         hops[i].keyId != "" &&
         env.resolve(Agent(env, r), hops[i].keyId) == Found(hops[i].key) &&
         CheckWindow(SignedParams(hops[i]), env.now(i), env.maxSkew).None?
  }

  /** A base over whole components and links does not depend on how parts are read. */
  lemma WholeBase(sel: Select, r: Request, fields: map<string, string>, count: int, sp: SigParams)
    ensures BaseOf(sel, r, ChainCovered(fields, count), sp) == BaseOf(NoParts, r, ChainCovered(fields, count), sp)
  {
    hide SigLabel, RampNames;
    var all := ChainCovered(fields, count);
    assert count > 0 ==> IsLink(Link(SigLabel(count)));
    hide IsLink;
    forall i | 0 <= i < |all|
      ensures ComponentValue(sel, r, all[i]) == ComponentValue(NoParts, r, all[i])
    {
      assert IsLink(all[i]) || all[i].params == [];
    }
    if Resolvable(sel, r, all) {
      assert LinesOf(sel, r, all) == LinesOf(NoParts, r, all);
    }
  }

  lemma HopVerifies(env: Env, r: Request, hops: seq<Hop>, i: nat)
    requires i < |hops| && r.input.Parsed? && r.signature.Parsed? && |r.input.value| == |hops|
    requires EntryAt(r, hops, i) && Trusts(env, r, hops)
    requires CoversRequired(r.input.value[i].covered) && CoversEntitlement(r, r.input.value[i].covered)
    ensures VerifySingle(env, r, r.input.value[i], env.now(i)).Ok?
  {
    hide SigLabel, ChainCovered, CoversRequired, CoversEntitlement, Covers, CheckWindow, BaseOf;
    assert Lower("ed25519") == "ed25519";
    WholeBase(env.select, r, r.fields, i, SignedParams(hops[i]));
  }

  /** The report names the hop's key, key id and window. */
  predicate ReportsHop(v: Verified, h: Hop) {
    v.publicKey == h.key && v.keyId == h.keyId && v.created == h.created && v.expires == h.expires
  }

  /** A chain of n trusted hops is accepted exactly when the hop bound is off or
      at least n, and refused for the hop count otherwise. */
  lemma AppendedChainVerifies(env: Env, r0: Request, hops: seq<Hop>, digest: string -> string)
    requires Unsigned(r0) && 1 <= |hops| < TWO63 && AppendAll(r0, hops, digest).Some?
    requires Trusts(env, AppendAll(r0, hops, digest).value, hops)
    ensures var out := VerifyMultisig(env, AppendAll(r0, hops, digest).value);
            && (out.Ok? <==> env.maxSignatures <= 0 || |hops| <= env.maxSignatures)
            && (out.Err? ==> out == Err(TooManyHops))
            && (out.Ok? ==> |out.value| == |hops|)
            && (out.Ok? ==> forall i | 0 <= i < |hops| :: ReportsHop(out.value[i], hops[i]))
  {
    hide SigLabel, VerifySingle, CoversRequired, CoversEntitlement, EntryAt, CheckWindow, AppendAll;
    AppendsBuild(r0, hops, digest);
    AppendedChainPasses(r0, hops, digest);
    var r := AppendAll(r0, hops, digest).value;
    var ps := r.input.value;
    forall i | 0 <= i < |ps|
      ensures VerifySingle(env, r, ps[i], env.now(i)).Ok? && ReportsHop(VerifySingle(env, r, ps[i], env.now(i)).value, hops[i])
      ensures ps[i].sp.keyId != "" && ps[i].labelText in r.signature.value
    {
      assert EntryAt(r, hops, i);
      HopVerifies(env, r, hops, i);
      HopReport(env, r, hops, i);
    }
    assert Parse(r) == Ok(ps);
    EachVerified(env, r, ps);
  }

  lemma HopReport(env: Env, r: Request, hops: seq<Hop>, i: nat)
    requires i < |hops| && r.input.Parsed? && r.signature.Parsed? && |r.input.value| == |hops|
    requires EntryAt(r, hops, i) && VerifySingle(env, r, r.input.value[i], env.now(i)).Ok?
    ensures ReportsHop(VerifySingle(env, r, r.input.value[i], env.now(i)).value, hops[i])
    ensures r.input.value[i].sp.keyId == hops[i].keyId && r.input.value[i].labelText in r.signature.value
  {
    hide SigLabel, ChainCovered, VerifySingle;
    SingleFacts(env, r, r.input.value[i], env.now(i));
    WholeBase(env.select, r, r.fields, i, SignedParams(hops[i]));
  }

  /** Some verifier accepts the chain of any such hops: each key known by its own
      name, stamped in the first second. */
  lemma ChainReported(hops: seq<Hop>) returns (env: Env, r: Request, vs: seq<Verified>)
    requires 1 <= |hops| < TWO63
    requires forall i | 0 <= i < |hops| ::
               hops[i].keyId == hops[i].key != "" && hops[i].created == 1 && hops[i].expires >= 1
    ensures VerifyMultisig(env, r) == Ok(vs) && |vs| == |hops|
    ensures forall i | 0 <= i < |hops| :: ReportsHop(vs[i], hops[i])
  {
    var r0 := Request(map["@method" := "POST", "@target-uri" := "u"], "", Absent, Absent);
    var digest := (body: string) => "d";
    env := Env((agent, keyId) => Found(keyId), digest, header => header, NoParts, i => 1, 300, 0);
    AppendsBuild(r0, hops, digest);
    hide AppendAll, VerifyMultisig, BaseOf, EntryAt;
    r := AppendAll(r0, hops, digest).value;
    assert Get(r, "content-digest") == "d";
    assert TrimSpace("d") == "d";
    AppendedChainVerifies(env, r0, hops, digest);
    vs := VerifyMultisig(env, r).value;
  }

  /******* Where the 64-bit label counter ends *******/

  /** The label after sig9223372036854775807 wraps to a negative number and
      every later append overwrites it. */
  predicate Wrapped(r: Request) {
    && r.input.Parsed? && |r.input.value| == TWO63
    && (forall i | 0 <= i < TWO63 - 1 :: r.input.value[i].labelText == SigLabel(i + 1))
    && r.input.value[TWO63 - 1].labelText == SigLabel(-TWO63)
  }

  lemma {:induction false} PutLast(ps: seq<Params>, p: Params)
    requires ps != [] && ps[|ps| - 1].labelText == p.labelText
    requires forall i | 0 <= i < |ps| - 1 :: ps[i].labelText != p.labelText
    ensures Put(ps, p) == ps[..|ps| - 1] + [p]
  {
    if |ps| == 1 {
    } else {
      PutLast(ps[1..], p);
      assert ps[1..][..|ps| - 2] == ps[1..|ps| - 1];
    }
  }

  lemma NegativeLabelDiffers(n: nat)
    ensures SigLabel(n) != SigLabel(-TWO63)
  {
    assert SigLabel(n)[3] != '-' && SigLabel(-TWO63)[3] == '-';
  }

  lemma WrapStep(r: Request, h: Hop, digest: string -> string)
    requires Append(r, h, digest).Some?
    requires Wrapped(r) || (r.input.Parsed? && |r.input.value| == TWO63 - 1 &&
                            forall i | 0 <= i < TWO63 - 1 :: r.input.value[i].labelText == SigLabel(i + 1))
    ensures Wrapped(Append(r, h, digest).value)
  {
    hide SigLabel, LabelNumber, Bind, ChainCovered, BaseOf;
    var ps := r.input.value;
    var first := ps[..TWO63 - 1];
    MaxLabelOfChain(first);
    LabelNumberOf(-TWO63);
    forall i | 0 <= i < |first|
      ensures first[i].labelText != SigLabel(-TWO63)
    {
      NegativeLabelDiffers(i + 1);
    }
    assert |ps| == TWO63 - 1 ==> ps == first;
    assert MaxLabel(ps) == TWO63 - 1;
    var r' := Append(r, h, digest).value;
    var fields := Bind(r.fields, digest(r.body));
    var p := Params(SigLabel(-TWO63), ChainCovered(fields, TWO63 - 1), SignedParams(h));
    assert Wrap64(TWO63) == -TWO63;
    assert r'.input == Parsed(Put(ps, p));
    if |ps| == TWO63 - 1 {
      PutFresh(ps, p);
    } else {
      PutLast(ps, p);
    }
  }

  /** From 2^63 appends on no request that comes out passes the chain gate: the
      bound on AppendedChainPasses is exact. */
  lemma {:induction false} TooManyAppendsBreakGate(r0: Request, hops: seq<Hop>, digest: string -> string)
    requires Unsigned(r0) && |hops| >= TWO63
    ensures var out := AppendAll(r0, hops, digest); out.Some? ==> Wrapped(out.value) && !Gate(out.value.input.value)
  {
    hide SigLabel, Append, Built, ChainCovered, BaseOf;
    var init, h := hops[..|hops| - 1], hops[|hops| - 1];
    if |hops| == TWO63 {
      AppendedChainPasses(r0, init, digest);
    } else {
      TooManyAppendsBreakGate(r0, init, digest);
    }
    if AppendAll(r0, hops, digest).Some? {
      WrapStep(AppendAll(r0, init, digest).value, h, digest);
      NegativeLabelDiffers(TWO63);
    }
  }
}

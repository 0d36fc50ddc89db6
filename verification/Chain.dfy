/** Signatures as symbolic terms. An Ed25519 value is the pair of the key and
    the signature base it was made over; nothing else verifies. The base holds
    the covered lines and the signature parameters of section 2.5 of RFC 9421,
    and a line may hold a member of the Signature dictionary (section 2.1.2),
    which is how one signature commits to another. A signature's label is NOT
    part of its base. */
module Chain {
  type Key = string

  datatype ComponentParam = ComponentParam(key: string, val: string)
  datatype Component = Component(name: string, params: seq<ComponentParam>)

  datatype SigParams = SigParams(
    keyId: string, alg: string, created: int, expires: int, tag: string, nonce: string)

  /** One Signature-Input member. */
  datatype Params = Params(labelText: string, covered: seq<Component>, sp: SigParams)

  /** The text of a field or of a part of one, a Signature member, the whole
      Signature-Input header, or one of its members. */
  datatype LineValue = Plain(text: string) | Member(sig: SigBytes) | Inputs(all: seq<Params>) | Input(one: Params)
  datatype Line = Line(component: Component, value: LineValue)
  datatype Base = Base(lines: seq<Line>, params: SigParams)
  datatype SigBytes = Ed(key: Key, base: Base) | Junk(bytes: string)

  /** What the verifier reports about one signature. */
  datatype Verified = Verified(
    keyId: string, alg: string, labelText: string, signature: SigBytes,
    created: int, expires: int, publicKey: Key, signatureAgent: string)

  /** The signatures a base commits to, in line order. */
  function Committed(lines: seq<Line>): seq<SigBytes> {
    if lines == [] then []
    else
      var rest := Committed(lines[..|lines| - 1]);
      var last := lines[|lines| - 1].value;
      if last.Member? then rest + [last.sig] else rest
  }

  /** The reported key id and window are the ones the signature was made over. */
  predicate Signed(v: Verified) {
    && v.signature.Ed?
    && v.signature.key == v.publicKey
    && v.signature.base.params.keyId == v.keyId
    && v.signature.base.params.created == v.created
    && v.signature.base.params.expires == v.expires
  }

  predicate LinkedAt(vs: seq<Verified>, i: nat)
    requires i < |vs|
  {
    && Signed(vs[i])
    && Committed(vs[i].signature.base.lines) == if i == 0 then [] else [vs[i - 1].signature]
  }

  /** A forwarding chain: the first signature commits to none, and every later
      one commits to exactly its predecessor. */
  predicate Linked(vs: seq<Verified>) {
    forall i | 0 <= i < |vs| :: LinkedAt(vs, i)
  }

  /** The replay-store key of a reported signature. */
  function ReplayPair(v: Verified): (string, SigBytes) { (v.keyId, v.signature) }

  /** One shared signature pins the position it stands at and everything before
      it, in any two chains. */
  lemma {:induction false} SharedSignature(a: seq<Verified>, i: nat, b: seq<Verified>, j: nat)
    requires Linked(a) && Linked(b) && i < |a| && j < |b|
    requires a[i].signature == b[j].signature
    ensures i == j
    ensures forall k | 0 <= k <= i :: k < |b| && a[k].signature == b[k].signature && a[k].keyId == b[k].keyId
    decreases i
  {
    var prevA := if i == 0 then [] else [a[i - 1].signature];
    var prevB := if j == 0 then [] else [b[j - 1].signature];
    assert LinkedAt(a, i) && LinkedAt(b, j);
    assert |prevA| == |prevB|;
    if i == 0 {
    } else {
      assert prevA[0] == prevB[0];
      SharedSignature(a, i - 1, b, j - 1);
    }
  }
}

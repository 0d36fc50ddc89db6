/** An agent's identity is its directory host in one canonical spelling: case,
    the root dot, implied ports, leading zeros and IP spellings folded away. */
module HostName {
  import opened Text

  /** netip.Addr: whether it is IPv4, its zone, and its printed form. */
  datatype Addr = Addr(is4: bool, zone: string, text: string)

  /** The two libraries the canonicaliser calls: the IP parser and the A-label
      mapping. */
  datatype Env = Env(parse: string -> Option<Addr>, toASCII: string -> Option<string>)

  /******* Searching *******/

  function LastIndex(s: string, c: char): (i: int)
    ensures -1 <= i < |s| && (i >= 0 ==> s[i] == c) && forall j | i < j < |s| :: s[j] != c
  {
    if s == "" then -1 else if s[|s| - 1] == c then |s| - 1 else LastIndex(s[..|s| - 1], c)
  }

  function FirstIndex(s: string, c: char): (i: int)
    ensures -1 <= i < |s| && (i >= 0 ==> s[i] == c)
    ensures forall j | 0 <= j < (if i < 0 then |s| else i) :: s[j] != c
  {
    if s == "" then -1
    else if s[0] == c then 0
    else
      var i := FirstIndex(s[1..], c);
      if i < 0 then -1 else i + 1
  }

  /******* The parts *******/

  predicate ASCII(s: string) { forall i | 0 <= i < |s| :: s[i] < 128 as char }

  predicate HostChar(c: char) { 'a' <= c <= 'z' || IsDigit(c) || c == '-' || c == '_' }

  predicate HostNameOk(name: string) {
    name != "" && forall l | l in Split(name, '.') :: l != "" && forall i | 0 <= i < |l| :: HostChar(l[i])
  }

  predicate EndsInNumericLabel(name: string) {
    var last := name[LastIndex(name, '.') + 1..];
    last != "" && AllDigits(last)
  }

  predicate Bracketed(s: string) { s != "" && s[0] == '[' }

  function TrimDot(s: string): string { if s != "" && s[|s| - 1] == '.' then s[..|s| - 1] else s }

  /** net.SplitHostPort: None when there is no port or the brackets and colons do
      not fit. */
  function SplitHostPort(s: string): Option<(string, string)> {
    var i := LastIndex(s, ':');
    if i < 0 then None
    else if s[0] == '[' then
      var end := FirstIndex(s, ']');
      if end < 0 || end + 1 != i || '[' in s[1..] || ']' in s[end + 1..] then None
      else Some((s[1..end], s[i + 1..]))
    else if ':' in s[..i] || '[' in s || ']' in s then None
    else Some((s[..i], s[i + 1..]))
  }

  function Rejoined(inner: string): string { if ':' in inner then "[" + inner + "]" else inner }

  /** Name and port, an IPv6 literal keeping its brackets. */
  function NameAndPort(s: string): (string, string) {
    match SplitHostPort(s)
    case None => (s, "")
    case Some((h, p)) => (Rejoined(h), p)
  }

  function CanonicalPort(port: string): Option<string> {
    if port == "" then Some("")
    else
      var n := Atoi(port);
      if n.None? || n.value < 1 || n.value > 65535 then None
      else if n.value == 80 || n.value == 443 then Some("")
      else Some(Itoa(n.value))
  }

  function CanonicalName(env: Env, name: string): Option<string> {
    if Bracketed(name) then
      if name[|name| - 1] != ']' || |name| < 2 then None
      else
        var a := env.parse(name[1..|name| - 1]);
        if a.None? || a.value.zone != "" then None else Some("[" + a.value.text + "]")
    else
      var n := if ASCII(name) then Some(name) else env.toASCII(name);
      if n.None? then None
      else if EndsInNumericLabel(n.value) then
        var a := env.parse(n.value);
        if a.None? || !a.value.is4 then None else Some(a.value.text)
      else if HostNameOk(n.value) then n
      else None
  }

  function CanonicalHost(env: Env, host: string): Option<string> {
    var (rawName, rawPort) := NameAndPort(host);
    var port := CanonicalPort(rawPort);
    var name := CanonicalName(env, Lower(TrimDot(rawName)));
    if port.None? || name.None? then None
    else if port.value == "" then name
    else Some(name.value + ":" + port.value)
  }

  /******* What is taken of the libraries *******/

  predicate Unbracketed(s: string) { '[' !in s && ']' !in s }

  /** netip: an address without a zone has no bracket in its spelling, IPv4 is the
      colon-free kind and ends in a number, and printing is lower-case ASCII that
      parses back. idna (strict): a name with a colon or a bracket has no A-label
      form. */
  ghost predicate Libraries(env: Env) {
    && (forall s :: env.parse(s).Some? ==> AddressOf(env, s, env.parse(s).value))
    && (forall s :: env.toASCII(s).Some? ==> ':' !in s && Unbracketed(s))
  }

  predicate AddressOf(env: Env, s: string, a: Addr) {
    && (a.is4 <==> ':' !in s)
    && (a.is4 ==> a.zone == "" && EndsInNumericLabel(s) && ASCII(s))
    && (a.zone == "" ==>
          Unbracketed(s) && env.parse(a.text) == Some(a) && ASCII(a.text) && Lower(a.text) == a.text && Unbracketed(a.text))
  }

  /******* Labels *******/

  lemma {:induction false} SplitLast(s: string, sep: char)
    ensures var parts := Split(s, sep); parts[|parts| - 1] == "" <==> s == "" || s[|s| - 1] == sep
  {
    if s == "" {
    } else {
      SplitLast(s[1..], sep);
    }
  }

  /** A character other than the separator stands in some part. */
  lemma {:induction false} SplitChars(s: string, sep: char, i: nat) returns (k: nat)
    requires i < |s| && s[i] != sep
    ensures k < |Split(s, sep)| && s[i] in Split(s, sep)[k]
  {
    var rest := Split(s[1..], sep);
    if i == 0 {
      k := 0;
      assert s[0] in [s[0]] + rest[0];
    } else {
      k := SplitChars(s[1..], sep, i - 1);
      assert s[1..][i - 1] == s[i];
      if s[0] == sep {
        k := k + 1;
      } else if k == 0 {
        assert s[i] in [s[0]] + rest[0];
      }
    }
  }

  lemma HostNameChars(name: string)
    requires HostNameOk(name)
    ensures forall i | 0 <= i < |name| :: name[i] == '.' || HostChar(name[i])
    ensures TrimDot(name) == name && Lower(name) == name && ASCII(name)
  {
    SplitLast(name, '.');
    var parts := Split(name, '.');
    assert parts[|parts| - 1] in parts;
    forall i | 0 <= i < |name|
      ensures name[i] == '.' || HostChar(name[i])
    {
      if name[i] != '.' {
        var k := SplitChars(name, '.', i);
        assert parts[k] in parts;
      }
    }
  }

  /******* The canonical name *******/

  /** A spelling the canonicaliser leaves alone, and that a port can follow. */
  predicate Normal(env: Env, name: string) {
    && name != "" && TrimDot(name) == name && Lower(name) == name && CanonicalName(env, name) == Some(name)
    && if name[0] == '[' then |name| >= 2 && name[|name| - 1] == ']' && Unbracketed(name[1..|name| - 1])
       else Unbracketed(name) && ':' !in name
  }

  lemma IPv4Normal(env: Env, a: Addr, s: string)
    requires Libraries(env) && env.parse(s) == Some(a) && a.is4
    ensures Normal(env, a.text)
  {
    assert AddressOf(env, s, a) && AddressOf(env, a.text, a);
    assert a.text[0] in a.text && !Bracketed(a.text);
  }

  lemma LiteralNormal(env: Env, a: Addr, s: string)
    requires Libraries(env) && env.parse(s) == Some(a) && a.zone == ""
    ensures Normal(env, "[" + a.text + "]")
  {
    assert AddressOf(env, s, a);
    var name := "[" + a.text + "]";
    assert name[1..|name| - 1] == a.text;
    assert Lower(name) == name;
  }

  lemma CanonicalNameNormal(env: Env, name: string)
    requires Libraries(env) && CanonicalName(env, name).Some?
    ensures Normal(env, CanonicalName(env, name).value)
  {
    hide EndsInNumericLabel, HostNameOk, Normal, Lower, AddressOf, ASCII;
    if Bracketed(name) {
      var s := name[1..|name| - 1];
      LiteralNormal(env, env.parse(s).value, s);
    } else {
      var n := if ASCII(name) then name else env.toASCII(name).value;
      if EndsInNumericLabel(n) {
        IPv4Normal(env, env.parse(n).value, n);
      } else {
        NameNormal(env, n);
      }
    }
  }

  lemma NameNormal(env: Env, n: string)
    requires HostNameOk(n) && !EndsInNumericLabel(n)
    ensures Normal(env, n)
  {
    HostNameChars(n);
    HostNameSpecials(n);
    assert n != "";
    assert n[0] in n;
    hide HostNameOk, EndsInNumericLabel, Lower, ASCII, TrimDot, Unbracketed;
  }

  /******* Splitting off a port *******/

  /** Text that cannot be mistaken for part of the name. */
  predicate PortLike(p: string) { ':' !in p && '.' !in p && Unbracketed(p) }

  predicate TakesPort(name: string) {
    if Bracketed(name) then FirstIndex(name, ']') == |name| - 1 && '[' !in name[1..]
    else ':' !in name && Unbracketed(name)
  }

  /** The name without its brackets. */
  function Inner(name: string): string { if Bracketed(name) && |name| >= 2 then name[1..|name| - 1] else name }

  lemma {:induction false} LastIndexAppended(s: string, t: string, c: char)
    requires c !in t
    ensures LastIndex(s + [c] + t, c) == |s|
  {
    var u := s + [c] + t;
    if t == "" {
      assert u[|s|] == c;
    } else {
      var n := |t| - 1;
      assert u[|u| - 1] == t[n] && t[n] in t && u[..|u| - 1] == s + [c] + t[..n];
      LastIndexAppended(s, t[..n], c);
    }
  }

  lemma FirstIndexExtended(s: string, t: string, c: char)
    requires c !in t
    ensures FirstIndex(s + t, c) == FirstIndex(s, c)
  {
    hide FirstIndex;
    var u := s + t;
    assert forall j | 0 <= j < |s| :: u[j] == s[j];
    assert forall j | |s| <= j < |u| :: u[j] == t[j - |s|] && u[j] in t;
  }

  lemma BareSplits(name: string, p: string)
    requires PortLike(p) && !Bracketed(name)
    ensures SplitHostPort(name + ":" + p) == if TakesPort(name) then Some((name, p)) else None
  {
    hide LastIndex, FirstIndex;
    var s := name + ":" + p;
    LastIndexAppended(name, p, ':');
    assert s == name + (":" + p);
    assert s[0] != '[' && s[|name| + 1..] == p && s[..|name|] == name;
  }

  lemma LiteralSplits(name: string, p: string)
    requires PortLike(p) && Bracketed(name)
    ensures SplitHostPort(name + ":" + p) == if TakesPort(name) then Some((Inner(name), p)) else None
  {
    hide LastIndex, FirstIndex;
    var tail := ":" + p;
    var s := name + ":" + p;
    LastIndexAppended(name, p, ':');
    FirstIndexExtended(name, tail, ']');
    assert s == name + tail;
    assert s[0] == '[';
    if FirstIndex(name, ']') == |name| - 1 {
      LiteralParts(name, tail);
      assert s[|name| + 1..] == p && ']' !in tail && '[' !in tail;
    }
  }

  lemma LiteralParts(name: string, tail: string)
    requires |name| >= 2
    ensures var s := name + tail;
            s[1..] == name[1..] + tail && s[|name|..] == tail && s[1..|name| - 1] == name[1..|name| - 1]
  {
  }

  /** Whether a port splits off depends on the name alone. */
  lemma PortSplits(name: string, p: string)
    requires PortLike(p)
    ensures SplitHostPort(name + ":" + p) == if TakesPort(name) then Some((Inner(name), p)) else None
  {
    hide SplitHostPort, TakesPort, PortLike;
    if Bracketed(name) {
      LiteralSplits(name, p);
    } else {
      BareSplits(name, p);
    }
  }

  lemma NormalTakesPort(env: Env, name: string)
    requires Normal(env, name)
    ensures TakesPort(name) && NameAndPort(name) == (name, "")
  {
    if name[0] == '[' {
      var inner := name[1..|name| - 1];
      assert name[1..] == inner + "]";
      assert forall j | 0 < j < |name| - 1 :: name[j] == inner[j - 1] && name[j] in inner;
      assert name[|name| - 1] == ']';
    } else {
      assert LastIndex(name, ':') < 0;
    }
  }

  /******* Idempotence *******/

  lemma PortText(n: int)
    requires 1 <= n <= 65535 && n != 80 && n != 443
    ensures Itoa(n) != "" && PortLike(Itoa(n)) && CanonicalPort(Itoa(n)) == Some(Itoa(n))
  {
    AtoiItoa(n);
  }

  lemma LowerFacts(h: string)
    ensures ':' in h <==> ':' in Lower(h)
    ensures '[' in h <==> '[' in Lower(h)
    ensures ']' in h <==> ']' in Lower(h)
    ensures Lower("[" + h + "]") == "[" + Lower(h) + "]"
  {
  }

  lemma LiteralKeepsColon(env: Env, t: string)
    requires Libraries(env) && ':' in t && CanonicalName(env, "[" + t + "]").Some?
    ensures ':' in Inner(CanonicalName(env, "[" + t + "]").value)
  {
    hide EndsInNumericLabel, HostNameOk, ASCII;
    var name := "[" + t + "]";
    assert name[1..|name| - 1] == t;
    var a := env.parse(t).value;
    assert AddressOf(env, t, a) && AddressOf(env, a.text, a);
    assert Inner("[" + a.text + "]") == a.text;
  }

  /** With a port, only a literal that has a colon keeps its brackets. */
  lemma PortedLiteral(env: Env, host: string)
    requires Libraries(env) && SplitHostPort(host).Some? && CanonicalHost(env, host).Some?
    ensures var name := CanonicalName(env, Lower(TrimDot(NameAndPort(host).0))).value;
            Bracketed(name) ==> ':' in Inner(name)
  {
    var (h, p) := SplitHostPort(host).value;
    hide CanonicalName, Libraries, Inner;
    LowerFacts(h);
    if ':' in h {
      assert TrimDot("[" + h + "]") == "[" + h + "]";
      LiteralKeepsColon(env, Lower(h));
    } else {
      assert '[' !in h;
      var low := Lower(TrimDot(h));
      assert forall i | 0 <= i < |low| :: low[i] == LowerChar(h[i]) && h[i] in h;
      assert !Bracketed(low);
      BareResult(env, low);
    }
  }

  lemma BareResult(env: Env, name: string)
    requires Libraries(env) && !Bracketed(name) && CanonicalName(env, name).Some?
    ensures !Bracketed(CanonicalName(env, name).value)
  {
    var n := if ASCII(name) then name else env.toASCII(name).value;
    hide HostNameOk, ASCII, Lower, EndsInNumericLabel;
    if EndsInNumericLabel(n) {
      var a := env.parse(n).value;
      assert AddressOf(env, n, a);
      assert a.text != "" ==> a.text[0] in a.text;
    } else {
      HostNameSpecials(n);
      assert n != "" ==> n[0] in n;
    }
  }

  /** Canonicalising a canonical identity changes nothing. */
  lemma Idempotent(env: Env, host: string)
    requires Libraries(env) && CanonicalHost(env, host).Some?
    ensures var c := CanonicalHost(env, host).value; CanonicalHost(env, c) == Some(c)
  {
    hide CanonicalName, Libraries, SplitHostPort, TakesPort, PortLike;
    var c := CanonicalHost(env, host).value;
    var (rawName, rawPort) := NameAndPort(host);
    var name := CanonicalName(env, Lower(TrimDot(rawName))).value;
    var port := CanonicalPort(rawPort).value;
    CanonicalNameNormal(env, Lower(TrimDot(rawName)));
    NormalTakesPort(env, name);
    if port != "" {
      PortText(Atoi(rawPort).value);
      PortSplits(name, port);
      PortedLiteral(env, host);
      Rejoins(env, name);
    }
  }

  lemma Rejoins(env: Env, name: string)
    requires Normal(env, name) && (Bracketed(name) ==> ':' in Inner(name))
    ensures Rejoined(Inner(name)) == name
  {
  }

  /******* Which ports name the same endpoint *******/

  predicate ValidPort(p: string) { Atoi(p).Some? && 1 <= Atoi(p).value <= 65535 }

  predicate SamePort(m: int, n: int) { m == n || (m in {80, 443} && n in {80, 443}) }

  lemma ValidPortLike(p: string)
    requires ValidPort(p)
    ensures p != "" && PortLike(p) && IsDigit(p[|p| - 1])
  {
    var body := if p[0] == '-' || p[0] == '+' then p[1..] else p;
    assert forall i | 0 <= i < |body| :: IsDigit(body[i]);
    assert forall i | 0 < i < |p| :: IsDigit(p[i]);
  }

  /** A name no port can follow is refused together with any port. */
  lemma UnportableRefused(env: Env, name: string, p: string)
    requires Libraries(env) && ValidPort(p) && !TakesPort(name)
    ensures CanonicalHost(env, name + ":" + p).None?
  {
    hide TakesPort, HostNameOk, SplitHostPort;
    ValidPortLike(p);
    PortSplits(name, p);
    var s := name + ":" + p;
    assert s[|s| - 1] == p[|p| - 1] && TrimDot(s) == s;
    WholeRefused(env, Lower(s), |name|);
  }

  lemma WholeRefused(env: Env, s: string, k: nat)
    requires Libraries(env) && k < |s| - 1 && s[k] == ':' && IsDigit(s[|s| - 1])
    requires forall j | k <= j < |s| :: s[j] != '.'
    ensures CanonicalName(env, s).None?
  {
    NotAName(s, k);
    hide EndsInNumericLabel, HostNameOk, ASCII, AddressOf;
    assert s[k] in s;
  }

  lemma NotAName(s: string, k: nat)
    requires k < |s| && s[k] == ':'
    ensures !HostNameOk(s)
  {
    if HostNameOk(s) {
      HostNameChars(s);
      assert false;
    }
  }

  /** Two valid ports after the same text are accepted together, and give the same
      identity exactly when they are the same number or both implied. */
  lemma PortIdentityIff(env: Env, name: string, p: string, q: string)
    requires Libraries(env) && ValidPort(p) && ValidPort(q)
    ensures var a, b := CanonicalHost(env, name + ":" + p), CanonicalHost(env, name + ":" + q);
            && (a.Some? <==> b.Some?)
            && (a.Some? ==> (a == b <==> SamePort(Atoi(p).value, Atoi(q).value)))
  {
    hide CanonicalName, SplitHostPort, TakesPort, PortLike, Atoi, Itoa;
    if !TakesPort(name) {
      UnportableRefused(env, name, p);
      UnportableRefused(env, name, q);
    } else {
      ValidPortLike(p);
      ValidPortLike(q);
      PortSplits(name, p);
      PortSplits(name, q);
      var m, n := Atoi(p).value, Atoi(q).value;
      DistinctPortText(m, n);
      var base := CanonicalName(env, Lower(TrimDot(Rejoined(Inner(name)))));
      if base.Some? {
        SuffixDiffers(base.value, CanonicalPort(p).value, CanonicalPort(q).value);
      }
    }
  }

  lemma DistinctPortText(m: int, n: int)
    requires 1 <= m && 1 <= n
    ensures Itoa(m) != "" && Itoa(n) != "" && (Itoa(m) == Itoa(n) <==> m == n)
  {
    if Itoa(m) == Itoa(n) {
      DecimalInjective(m, n);
    }
  }

  lemma SuffixDiffers(base: string, p: string, q: string)
    ensures var a := if p == "" then base else base + ":" + p;
            var b := if q == "" then base else base + ":" + q;
            a == b <==> p == q
  {
    if p != "" && q != "" && base + ":" + p == base + ":" + q {
      assert (base + ":" + p)[|base| + 1..] == p;
      assert (base + ":" + q)[|base| + 1..] == q;
    }
  }

  predicate EndsInDot(s: string) { s != "" && s[|s| - 1] == '.' }

  /** An implied port folds away except after a literal without a colon, whose
      brackets are lost with the port, and a literal with a root dot, which no
      port can follow. */
  lemma ImpliedPortFoldsIff(env: Env, name: string)
    requires Libraries(env) && SplitHostPort(name).None? && CanonicalHost(env, name).Some?
    ensures CanonicalHost(env, name + ":443") == CanonicalHost(env, name) <==>
            !Bracketed(name) || (':' in name && !EndsInDot(name))
  {
    ImpliedPort();
    hide CanonicalName, Libraries, SplitHostPort, TakesPort, PortLike, Inner, Rejoined, CanonicalPort, ValidPort;
    assert name + ":443" == name + ":" + "443";
    if Bracketed(name) {
      if EndsInDot(name) {
        DottedLiteral(env, name);
        UnportableRefused(env, name, "443");
      } else {
        PlainLiteral(env, name);
        PortSplits(name, "443");
        LiteralWithPort(env, name);
      }
    } else {
      BareNameTakesPort(env, name);
      PortSplits(name, "443");
    }
  }

  lemma BareNameTakesPort(env: Env, name: string)
    requires Libraries(env) && !Bracketed(name) && CanonicalName(env, Lower(TrimDot(name))).Some?
    ensures TakesPort(name) && Rejoined(Inner(name)) == name
  {
    BareChars(env, Lower(TrimDot(name)));
    hide Libraries, CanonicalName;
    LowerFacts(TrimDot(name));
  }

  lemma HostNameSpecials(name: string)
    requires HostNameOk(name)
    ensures ':' !in name && Unbracketed(name)
  {
    HostNameChars(name);
    hide HostNameOk, Lower, ASCII;
  }

  lemma BareChars(env: Env, low: string)
    requires Libraries(env) && !Bracketed(low) && CanonicalName(env, low).Some?
    ensures ':' !in low && Unbracketed(low)
  {
    hide EndsInNumericLabel, HostNameOk, ASCII, Lower, Unbracketed;
    if ASCII(low) {
      if EndsInNumericLabel(low) {
        assert AddressOf(env, low, env.parse(low).value);
      } else {
        HostNameSpecials(low);
      }
    }
  }

  lemma DottedLiteral(env: Env, name: string)
    requires Bracketed(name) && EndsInDot(name) && CanonicalName(env, Lower(TrimDot(name))).Some?
    ensures !TakesPort(name)
  {
    var low := Lower(TrimDot(name));
    assert low[0] == '[' && low[|low| - 1] == ']';
    assert name[|name| - 2] == ']';
  }

  lemma LiteralShape(env: Env, name: string)
    requires Bracketed(name) && CanonicalName(env, Lower(name)).Some?
    ensures |name| >= 2 && name == "[" + Inner(name) + "]"
    ensures env.parse(Lower(Inner(name))).Some? && env.parse(Lower(Inner(name))).value.zone == ""
  {
    hide EndsInNumericLabel, HostNameOk, ASCII;
    var low := Lower(name);
    assert low[0] == '[' && low[|low| - 1] == ']';
    assert name == "[" + Inner(name) + "]";
    assert low[1..|low| - 1] == Lower(Inner(name));
  }

  lemma PlainLiteral(env: Env, name: string)
    requires Libraries(env) && Bracketed(name) && CanonicalName(env, Lower(name)).Some?
    ensures |name| >= 2 && name == "[" + Inner(name) + "]" && TakesPort(name)
  {
    LiteralShape(env, name);
    var t := Inner(name);
    assert AddressOf(env, Lower(t), env.parse(Lower(t)).value);
    assert '[' !in Lower(t) && ']' !in Lower(t);
    hide *;
    LowerFacts(t);
    BracketsTakePort(t);
  }

  lemma BracketsTakePort(t: string)
    requires '[' !in t && ']' !in t
    ensures TakesPort("[" + t + "]")
  {
    hide FirstIndex;
    var name := "[" + t + "]";
    assert name[1..] == t + "]" && name[|name| - 1] == ']';
    assert forall j | 0 < j < |name| - 1 :: name[j] == t[j - 1] && name[j] != ']';
  }

  lemma LiteralWithPort(env: Env, name: string)
    requires Libraries(env) && Bracketed(name) && CanonicalName(env, Lower(name)).Some?
    ensures ':' in name ==> Rejoined(Inner(name)) == name
    ensures ':' !in name ==> CanonicalName(env, Lower(TrimDot(Rejoined(Inner(name))))) != CanonicalName(env, Lower(name))
  {
    LiteralShape(env, name);
    var t := Inner(name);
    assert ':' in name <==> ':' in t;
    if ':' !in t {
      LowerFacts(t);
    }
  }

  lemma ImpliedPort()
    ensures ValidPort("443") && PortLike("443") && CanonicalPort("443") == Some("") && CanonicalPort("") == Some("")
  {
    AtoiItoa(443);
    assert Decimal(443) == Decimal(44) + "3" && Decimal(44) == Decimal(4) + "4";
    assert Itoa(443) == "443";
  }

  const QUAD := "1.2.3.4"

  /** A parser that knows one IPv4 address. */
  const ONE_QUAD := Env(s => if s == QUAD then Some(Addr(true, "", QUAD)) else None, s => None)

  lemma QuadFacts()
    ensures EndsInNumericLabel(QUAD) && ASCII(QUAD) && Lower(QUAD) == QUAD && Unbracketed(QUAD) && ':' !in QUAD
    ensures Lower("[" + QUAD + "]") == "[" + QUAD + "]"
  {
    LastIndexAppended("1.2.3", "4", '.');
    assert QUAD == "1.2.3" + ['.'] + "4" && QUAD[6..] == "4";
  }

  lemma OneQuadLibraries()
    ensures Libraries(ONE_QUAD)
  {
    QuadFacts();
    hide EndsInNumericLabel, ASCII, Lower, Unbracketed;
    assert AddressOf(ONE_QUAD, QUAD, Addr(true, "", QUAD));
  }

  const LITERAL := "[" + QUAD + "]"

  lemma QuadNames()
    ensures CanonicalName(ONE_QUAD, QUAD) == Some(QUAD) && CanonicalName(ONE_QUAD, LITERAL) == Some(LITERAL)
  {
    QuadFacts();
    hide EndsInNumericLabel, ASCII, HostNameOk;
    assert LITERAL[1..|LITERAL| - 1] == QUAD;
  }

  lemma QuadPorts()
    ensures NameAndPort(LITERAL) == (LITERAL, "") && NameAndPort(LITERAL + ":" + "443") == (QUAD, "443")
  {
    QuadFacts();
    ImpliedPort();
    hide EndsInNumericLabel, ASCII, Lower, CanonicalPort, ValidPort;
    assert Inner(LITERAL) == QUAD && Rejoined(QUAD) == QUAD;
    hide Inner, Rejoined;
    BracketsTakePort(QUAD);
    PortSplits(LITERAL, "443");
    hide SplitHostPort, TakesPort;
    NoColonNoPort(LITERAL);
  }

  lemma QuadSpelling()
    ensures LITERAL == "[1.2.3.4]" && LITERAL + ":" + "443" == "[1.2.3.4]:443"
    ensures TrimDot(QUAD) == QUAD && TrimDot(LITERAL) == LITERAL
  {
  }

  /** The bracketed quad and the bracketed quad with the implied port are two
      identities. */
  lemma BracketedQuadSplits()
    ensures Libraries(ONE_QUAD)
    ensures CanonicalHost(ONE_QUAD, "[1.2.3.4]") == Some("[1.2.3.4]")
    ensures CanonicalHost(ONE_QUAD, "[1.2.3.4]:443") == Some("1.2.3.4")
  {
    hide Libraries, CanonicalName, NameAndPort, EndsInNumericLabel, ASCII, Lower, PortLike, CanonicalPort, TrimDot, Unbracketed;
    OneQuadLibraries();
    QuadFacts();
    QuadNames();
    QuadPorts();
    ImpliedPort();
    QuadSpelling();
  }

  /******* Spellings that fold *******/

  lemma LowerTwice(s: string)
    ensures Lower(Lower(s)) == Lower(s) && Lower(TrimDot(Lower(s))) == Lower(TrimDot(s))
  {
    assert |s| > 0 ==> (Lower(s)[|s| - 1] == '.' <==> s[|s| - 1] == '.');
  }

  lemma LowerNumeral(s: string)
    ensures AllDigits(s) <==> AllDigits(Lower(s))
    ensures AllDigits(s) ==> Lower(s) == s
  {
    assert forall i | 0 <= i < |s| :: IsDigit(s[i]) <==> IsDigit(Lower(s)[i]);
  }

  lemma LowerPort(p: string)
    ensures CanonicalPort(Lower(p)) == CanonicalPort(p)
  {
    if p != "" {
      var signed := p[0] == '-' || p[0] == '+';
      var body := if signed then p[1..] else p;
      assert signed <==> Lower(p)[0] == '-' || Lower(p)[0] == '+';
      assert Lower(p)[1..] == Lower(p[1..]);
      LowerNumeral(body);
    }
  }

  /** The same text as far as splitting can see. */
  predicate Alike(s: string, t: string, c: char) {
    |s| == |t| && forall i | 0 <= i < |s| :: s[i] == c <==> t[i] == c
  }

  lemma AlikeBracketed(s: string, t: string)
    requires Alike(s, t, '[') && Alike(s, t, ']') && Alike(s, t, ':') && Bracketed(s)
    ensures SplitHostPort(s).Some? <==> SplitHostPort(t).Some?
  {
    var i, end := LastIndex(s, ':'), FirstIndex(s, ']');
    if end >= 0 {
    }
    assert t[0] == '[' && s[1..|s|] == s[1..] && t[1..|s|] == t[1..];
    hide LastIndex, FirstIndex, Alike;
  }

  /** The two slices a split takes. */
  lemma SplitSlices(s: string)
    requires SplitHostPort(s).Some?
    ensures var i := LastIndex(s, ':');
            var (lo, hi) := if Bracketed(s) then (1, i - 1) else (0, i);
            0 <= lo <= hi <= i < |s| && SplitHostPort(s) == Some((s[lo..hi], s[i + 1..|s|]))
  {
    hide LastIndex, FirstIndex;
    var i := LastIndex(s, ':');
    assert s[i + 1..|s|] == s[i + 1..];
  }

  lemma LowerAlike(s: string, c: char)
    requires c in {':', '[', ']'}
    ensures Alike(s, Lower(s), c)
  {
  }

  function LowerPair(r: Option<(string, string)>): Option<(string, string)> {
    match r
    case None => None
    case Some((h, p)) => Some((Lower(h), Lower(p)))
  }

  lemma LowerSlice(s: string, lo: nat, hi: nat)
    requires lo <= hi <= |s|
    ensures Lower(s)[lo..hi] == Lower(s[lo..hi])
  {
  }

  lemma AlikeSplit(s: string, t: string) returns (lo: nat, hi: nat, k: nat)
    requires Alike(s, t, '[') && Alike(s, t, ']') && Alike(s, t, ':')
    ensures lo <= hi <= |s| && k <= |s| == |t|
    ensures SplitHostPort(s).None? ==> SplitHostPort(t).None?
    ensures SplitHostPort(s).Some? ==>
              SplitHostPort(s) == Some((s[lo..hi], s[k..|s|])) && SplitHostPort(t) == Some((t[lo..hi], t[k..|t|]))
  {
    assert Bracketed(s) == Bracketed(t);
    if Bracketed(s) {
      AlikeBracketed(s, t);
    } else {
    }
    hide SplitHostPort, LastIndex, Alike, Bracketed;
    lo, hi, k := 0, 0, 0;
    if SplitHostPort(s).Some? {
      SplitSlices(s);
      SplitSlices(t);
      var i := LastIndex(s, ':');
      lo, hi, k := if Bracketed(s) then 1 else 0, if Bracketed(s) then i - 1 else i, i + 1;
    }
  }

  lemma LowerSplit(s: string)
    ensures SplitHostPort(Lower(s)) == LowerPair(SplitHostPort(s))
  {
    hide SplitHostPort, Alike, Lower;
    LowerAlike(s, ':');
    LowerAlike(s, '[');
    LowerAlike(s, ']');
    var lo, hi, k := AlikeSplit(s, Lower(s));
    LowerSlice(s, lo, hi);
    LowerSlice(s, k, |s|);
  }

  lemma LowerRejoined(h: string)
    ensures Lower(TrimDot(Rejoined(Lower(h)))) == Lower(TrimDot(Rejoined(h)))
  {
    LowerFacts(h);
    LowerTwice(Rejoined(h));
  }

  /** Case never distinguishes two identities. */
  lemma CaseFolds(env: Env, host: string)
    ensures CanonicalHost(env, Lower(host)) == CanonicalHost(env, host)
  {
    hide CanonicalName, SplitHostPort, CanonicalPort, Lower, Rejoined, TrimDot;
    LowerSplit(host);
    match SplitHostPort(host)
    case None =>
      LowerTwice(host);
    case Some((h, p)) =>
      LowerPort(p);
      LowerRejoined(h);
  }

  lemma NoColonNoPort(s: string)
    requires ':' !in s
    ensures SplitHostPort(s) == None
  {
    hide LastIndex;
    assert LastIndex(s, ':') < 0;
  }

  lemma DottedTakesPort(name: string)
    requires TakesPort(name) && !Bracketed(name) && !EndsInDot(name) && name != ""
    ensures var dotted := name + ".";
            && ':' !in name && ':' !in dotted && TakesPort(dotted) && TrimDot(dotted) == name == TrimDot(name)
            && Rejoined(Inner(dotted)) == dotted && Rejoined(Inner(name)) == name
  {
    var dotted := name + ".";
    assert dotted[0] == name[0];
    assert ':' !in dotted && Unbracketed(dotted);
  }

  /** Nor does the root dot of a name, with a port or without. */
  lemma RootDotFolds(env: Env, name: string, p: string)
    requires TakesPort(name) && !Bracketed(name) && !EndsInDot(name) && name != "" && PortLike(p)
    ensures CanonicalHost(env, name + ".") == CanonicalHost(env, name)
    ensures CanonicalHost(env, name + "." + ":" + p) == CanonicalHost(env, name + ":" + p)
  {
    var dotted := name + ".";
    DottedTakesPort(name);
    hide CanonicalName, PortLike, SplitHostPort, TakesPort, Inner, Rejoined, TrimDot, CanonicalPort;
    NoColonNoPort(name);
    NoColonNoPort(dotted);
    PortSplits(name, p);
    PortSplits(dotted, p);
  }

  /******* Which dotted names are accepted *******/

  function Joined(labels: seq<string>): string
    requires labels != []
  {
    if |labels| == 1 then labels[0] else Joined(labels[..|labels| - 1]) + "." + labels[|labels| - 1]
  }

  /** No upper case, and none of the characters that separate or bracket. */
  predicate PlainLabel(l: string) {
    forall i | 0 <= i < |l| :: l[i] < 128 as char && !('A' <= l[i] <= 'Z') && l[i] !in {'.', ':', '[', ']'}
  }

  lemma {:induction false} SplitJoined(labels: seq<string>)
    requires labels != [] && forall l | l in labels :: PlainLabel(l)
    ensures Split(Joined(labels), '.') == labels
  {
    hide Split;
    var n := |labels| - 1;
    var last := labels[n];
    assert '.' !in last by { assert last in labels; }
    hide PlainLabel;
    if n == 0 {
      SplitNothing(last, '.');
    } else {
      var init := labels[..n];
      SplitJoined(init);
      SplitAppended(Joined(init), '.', last);
      assert labels == init + [last];
    }
  }

  lemma LabelPlainChars(l: string)
    requires PlainLabel(l)
    ensures PlainChars(l)
  {
  }

  lemma PlainCharsJoin(a: string, b: string)
    requires PlainChars(a) && PlainChars(b)
    ensures PlainChars(a + "." + b)
  {
    var s := a + "." + b;
    assert forall i | 0 <= i < |s| :: s[i] == if i < |a| then a[i] else if i == |a| then '.' else b[i - |a| - 1];
  }

  lemma {:induction false} JoinedChars(labels: seq<string>)
    requires labels != [] && forall l | l in labels :: PlainLabel(l)
    ensures PlainChars(Joined(labels))
  {
    hide PlainLabel, PlainChars;
    var n := |labels| - 1;
    assert labels[n] in labels;
    LabelPlainChars(labels[n]);
    if n == 0 {
    } else {
      JoinedChars(labels[..n]);
      PlainCharsJoin(Joined(labels[..n]), labels[n]);
    }
  }

  lemma LastLabel(labels: seq<string>)
    requires labels != [] && '.' !in labels[|labels| - 1]
    ensures var name := Joined(labels); name[LastIndex(name, '.') + 1..] == labels[|labels| - 1]
  {
    var n := |labels| - 1;
    var name, last := Joined(labels), labels[n];
    if n == 0 {
      assert LastIndex(name, '.') == -1;
    } else {
      LastIndexAppended(Joined(labels[..n]), last, '.');
    }
  }

  /** A name the canonicaliser neither splits, folds nor parses as an address. */
  predicate PlainName(name: string) {
    && name != "" && TrimDot(name) == name && Lower(name) == name && ASCII(name)
    && !Bracketed(name) && !EndsInNumericLabel(name) && ':' !in name
  }

  predicate PlainChars(name: string) {
    forall i | 0 <= i < |name| :: name[i] < 128 as char && !('A' <= name[i] <= 'Z') && name[i] !in {':', '[', ']'}
  }

  lemma JoinedEnd(labels: seq<string>)
    requires labels != [] && forall l | l in labels :: PlainLabel(l)
    requires var last := labels[|labels| - 1]; last != "" && exists i | 0 <= i < |last| :: !('0' <= last[i] <= '9')
    ensures var name := Joined(labels); name != "" && TrimDot(name) == name && !EndsInNumericLabel(name)
  {
    var name, last := Joined(labels), labels[|labels| - 1];
    assert last in labels && PlainLabel(last) && '.' !in last;
    LastLabel(labels);
    hide Joined, LastIndex, PlainLabel;
    var at := LastIndex(name, '.') + 1;
    assert name[at..] == last;
    assert name[|name| - 1] == last[|last| - 1] && last[|last| - 1] in last;
    assert !AllDigits(last);
  }

  lemma JoinedPlain(labels: seq<string>)
    requires labels != [] && forall l | l in labels :: PlainLabel(l)
    requires var last := labels[|labels| - 1]; last != "" && exists i | 0 <= i < |last| :: !('0' <= last[i] <= '9')
    ensures PlainName(Joined(labels))
  {
    JoinedChars(labels);
    JoinedEnd(labels);
    hide Joined, TrimDot, EndsInNumericLabel, PlainLabel, PlainChars, Lower, ASCII, Bracketed;
  }

  lemma PlainNameKept(env: Env, name: string)
    requires PlainName(name)
    ensures CanonicalHost(env, name) == if HostNameOk(name) then Some(name) else None
  {
    NoColonNoPort(name);
    hide SplitHostPort, EndsInNumericLabel, HostNameOk;
  }

  /** A lower-case dotted name with a last label that is neither empty nor a number is
      its own canonical host exactly when every label is a non-empty run of letters,
      digits, hyphens and underscores; otherwise it is refused. */
  lemma DottedNameIff(env: Env, labels: seq<string>)
    requires labels != [] && forall l | l in labels :: PlainLabel(l)
    requires var last := labels[|labels| - 1]; last != "" && exists i | 0 <= i < |last| :: !('0' <= last[i] <= '9')
    ensures CanonicalHost(env, Joined(labels)) ==
            if forall l | l in labels ::
                 l != "" && forall i | 0 <= i < |l| :: 'a' <= l[i] <= 'z' || '0' <= l[i] <= '9' || l[i] == '-' || l[i] == '_'
            then Some(Joined(labels)) else None
  {
    JoinedPlain(labels);
    SplitJoined(labels);
    PlainNameKept(env, Joined(labels));
    hide Joined, Split, CanonicalHost, PlainLabel, TrimDot, Lower, ASCII, EndsInNumericLabel;
  }
}

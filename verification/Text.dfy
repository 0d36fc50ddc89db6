/** Strings as the Go standard library reads and prints them: decimal numerals
    (strconv.Itoa, strconv.Atoi, "%d"), ASCII case folding, splitting and
    trimming, plus the 64-bit integer range every count is held in. */
module Text {

  datatype Option<+T> = None | Some(value: T)

  const TWO63: int := 0x8000_0000_0000_0000
  const TWO64: int := 0x1_0000_0000_0000_0000

  /** The values an int64 (and an int, on a 64-bit platform) can hold. */
  predicate InInt64(n: int) { -TWO63 <= n < TWO63 }

  /** Two's-complement wrap-around of an int64 result. */
  function Wrap64(n: int): (r: int)
    ensures InInt64(r)
    ensures InInt64(n) <==> r == n
  {
    (n + TWO63) % TWO64 - TWO63
  }

  /******* Decimal numerals *******/

  predicate IsDigit(c: char) { '0' <= c <= '9' }

  predicate AllDigits(s: string) { forall i | 0 <= i < |s| :: IsDigit(s[i]) }

  function DigitOf(c: char): nat
    requires IsDigit(c)
  {
    c as int - '0' as int
  }

  function CharOf(d: nat): (c: char)
    requires d < 10
    ensures IsDigit(c) && DigitOf(c) == d
  {
    ('0' as int + d) as char
  }

  /** The number a run of digits denotes, leading zeros included. */
  function Value(s: string): nat
    requires AllDigits(s)
  {
    if s == "" then 0 else 10 * Value(s[..|s| - 1]) + DigitOf(s[|s| - 1])
  }

  /** The shortest decimal numeral of n. */
  function Decimal(n: nat): (s: string)
    ensures s != "" && AllDigits(s)
  {
    if n < 10 then [CharOf(n)] else Decimal(n / 10) + [CharOf(n % 10)]
  }

  function Itoa(n: int): string {
    if n < 0 then "-" + Decimal(-n) else Decimal(n)
  }

  /** An optional sign, then digits only, then the 64-bit range check. */
  function Atoi(s: string): Option<int> {
    var signed := s != "" && (s[0] == '-' || s[0] == '+');
    var body := if signed then s[1..] else s;
    if body == "" || !AllDigits(body) then None
    else
      var n: int := Value(body);
      var n := if signed && s[0] == '-' then -n else n;
      if InInt64(n) then Some(n) else None
  }

  lemma {:induction false} DecimalRoundTrip(n: nat)
    ensures Value(Decimal(n)) == n
  {
    if n < 10 {
      assert Decimal(n)[..0] == "";
    } else {
      var s := Decimal(n);
      assert s[..|s| - 1] == Decimal(n / 10);
      DecimalRoundTrip(n / 10);
    }
  }

  lemma DecimalInjective(m: nat, n: nat)
    requires Decimal(m) == Decimal(n)
    ensures m == n
  {
    DecimalRoundTrip(m);
    DecimalRoundTrip(n);
  }

  /** Parsing undoes printing, exactly on the 64-bit range. */
  lemma AtoiItoa(n: int)
    ensures Atoi(Itoa(n)) == if InInt64(n) then Some(n) else None
  {
    hide Decimal, Value;
    if n < 0 {
      DecimalRoundTrip(-n);
      assert Itoa(n)[1..] == Decimal(-n);
    } else {
      DecimalRoundTrip(n);
      assert IsDigit(Itoa(n)[0]);
    }
  }

  /******* Case, trimming, splitting *******/

  function LowerChar(c: char): char {
    if 'A' <= c <= 'Z' then (c as int + 32) as char else c
  }

  function Lower(s: string): (r: string)
    ensures |r| == |s|
    ensures forall i | 0 <= i < |s| :: r[i] == LowerChar(s[i])
  {
    seq(|s|, i requires 0 <= i < |s| => LowerChar(s[i]))
  }

  /** unicode.IsSpace. */
  predicate IsSpace(c: char) {
    var n := c as int;
    9 <= n <= 13 || n in {0x20, 0x85, 0xA0, 0x1680, 0x2028, 0x2029, 0x202F, 0x205F, 0x3000} || 0x2000 <= n <= 0x200A
  }

  function TrimSpace(s: string): string {
    if s != "" && IsSpace(s[0]) then TrimSpace(s[1..])
    else if s != "" && IsSpace(s[|s| - 1]) then TrimSpace(s[..|s| - 1])
    else s
  }

  /** Trimming removes the spaces at both ends and nothing else. */
  lemma {:induction false} TrimSpaceIs(s: string) returns (i: nat, j: nat)
    ensures i <= j <= |s| && TrimSpace(s) == s[i..j]
    ensures (forall k | 0 <= k < i :: IsSpace(s[k])) && (forall k | j <= k < |s| :: IsSpace(s[k]))
    ensures i < j ==> !IsSpace(s[i]) && !IsSpace(s[j - 1])
  {
    if s != "" && IsSpace(s[0]) {
      var a, b := TrimSpaceIs(s[1..]);
      i, j := a + 1, b + 1;
      assert forall k | 1 <= k < |s| :: s[k] == s[1..][k - 1];
      assert s[1..][a..b] == s[i..j];
    } else if s != "" && IsSpace(s[|s| - 1]) {
      i, j := TrimSpaceIs(s[..|s| - 1]);
      assert forall k | 0 <= k < |s| - 1 :: s[k] == s[..|s| - 1][k];
      assert s[..|s| - 1][i..j] == s[i..j];
    } else {
      i, j := 0, |s|;
      assert s[..] == s;
    }
  }


  /** strings.Split on one separator: always at least one part. */
  function Split(s: string, sep: char): (parts: seq<string>)
    ensures |parts| >= 1
  {
    if s == "" then [""]
    else if s[0] == sep then [""] + Split(s[1..], sep)
    else
      var rest := Split(s[1..], sep);
      [[s[0]] + rest[0]] + rest[1..]
  }

  lemma {:induction false} SplitNothing(s: string, sep: char)
    requires sep !in s
    ensures Split(s, sep) == [s]
  {
    if s == "" {
    } else {
      SplitNothing(s[1..], sep);
      assert [s[0]] + s[1..] == s;
    }
  }

  lemma {:induction false} SplitAppended(s: string, sep: char, t: string)
    requires sep !in t
    ensures Split(s + [sep] + t, sep) == Split(s, sep) + [t]
  {
    var u := s + [sep] + t;
    if s == "" {
      assert u[1..] == t;
      SplitNothing(t, sep);
    } else {
      assert u[1..] == s[1..] + [sep] + t && u[0] == s[0];
      SplitAppended(s[1..], sep, t);
    }
  }

  lemma {:induction false} SplitTrailing(s: string, sep: char, c: char)
    requires c != sep
    ensures var parts := Split(s, sep);
            Split(s + [c], sep) == parts[..|parts| - 1] + [parts[|parts| - 1] + [c]]
  {
    var u := s + [c];
    if s == "" {
      SplitNothing(u, sep);
    } else {
      assert u[1..] == s[1..] + [c] && u[0] == s[0];
      SplitTrailing(s[1..], sep, c);
      var rest := Split(s[1..], sep);
      if s[0] != sep && |rest| == 1 {
        assert [s[0]] + (rest[0] + [c]) == ([s[0]] + rest[0]) + [c];
      }
    }
  }

  lemma {:induction false} TrimTrailing(s: string, c: char)
    requires IsSpace(c)
    ensures TrimSpace(s + [c]) == TrimSpace(s)
  {
    var u := s + [c];
    if s == "" {
      assert u[1..] == "";
    } else if IsSpace(s[0]) {
      assert u[1..] == s[1..] + [c];
      TrimTrailing(s[1..], c);
    } else {
      assert u[..|u| - 1] == s;
    }
  }

  /******* Filters *******/

  /** at lists, in increasing order, exactly the places below n that are taken. */
  predicate Places(at: seq<nat>, n: nat, taken: nat -> bool) {
    && (forall i, j | 0 <= i < j < |at| :: at[i] < at[j])
    && (forall i | 0 <= i < |at| :: at[i] < n && taken(at[i]))
    && (forall k: nat | k < n && taken(k) :: k in at)
  }

  lemma PlacesNext(at: seq<nat>, n: nat, taken: nat -> bool)
    requires Places(at, n, taken)
    ensures Places(if taken(n) then at + [n] else at, n + 1, taken)
  {
    if taken(n) {
      var more := at + [n];
      assert more[|at|] == n;
      forall k: nat | k < n + 1 && taken(k)
        ensures k in more
      {
        if k < n {
          assert k in at;
        }
      }
    }
  }
}

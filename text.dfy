/** The JavaScript string behaviour the scripts rely on: truthiness and `||`
    on possibly-absent strings, `endsWith`, the two regular-expression
    replacements, `String(n)` on a non-negative integer and `slice(-k)`. */
module Text {

  datatype Option<+T> = None | Some(value: T)

  /** A JavaScript value that is either `undefined` or a string, as an
      environment variable or a parsed form field is. Only a present,
      non-empty string is truthy. */
  predicate Truthy(v: Option<string>) {
    v.Some? && v.value != ""
  }

  /** `a || b` where both sides may be `undefined`. */
  function Or(a: Option<string>, b: Option<string>): Option<string> {
    if Truthy(a) then a else b
  }

  /** `a || d` where the default `d` is a string literal. */
  function OrDefault(a: Option<string>, d: string): string {
    if Truthy(a) then a.value else d
  }

  /** `s.endsWith(suffix)`. */
  predicate EndsWith(s: string, suffix: string) {
    |suffix| <= |s| && s[|s| - |suffix|..] == suffix
  }

  /** `s.replace(/\/+$/, '')`: the maximal run of trailing slashes is removed. */
  function TrimTrailingSlashes(s: string): (r: string)
    ensures r <= s
    ensures r == [] || r[|r| - 1] != '/'
    ensures forall i :: |r| <= i < |s| ==> s[i] == '/'
    decreases |s|
  {
    if |s| > 0 && s[|s| - 1] == '/' then TrimTrailingSlashes(s[..|s| - 1]) else s
  }

  /** Position of the last '/' in `s`, if any. */
  function LastSlash(s: string): (r: Option<nat>)
    ensures r.Some? ==> r.value < |s| && s[r.value] == '/'
    ensures r.Some? ==> forall i :: r.value < i < |s| ==> s[i] != '/'
    ensures r.None? ==> forall i :: 0 <= i < |s| ==> s[i] != '/'
    decreases |s|
  {
    if |s| == 0 then None
    else if s[|s| - 1] == '/' then Some(|s| - 1)
    else LastSlash(s[..|s| - 1])
  }

  /** `s.replace(/\/[^\/]*$/, '')`. The leftmost match of the pattern starts
      at the last '/', so the last '/' and everything after it are removed;
      a string without '/' does not match and is unchanged. */
  function StripLastSegment(s: string): (r: string)
    ensures r <= s
    ensures (forall i :: 0 <= i < |s| ==> s[i] != '/') ==> r == s
    ensures (exists i :: 0 <= i < |s| && s[i] == '/') ==>
              |r| < |s| && s[|r|] == '/' && forall i :: |r| < i < |s| ==> s[i] != '/'
  {
    match LastSlash(s)
    case None => s
    case Some(i) => s[..i]
  }

  /** `s.slice(-k)` for k > 0: the last `k` characters, or all of `s` when it is shorter. */
  function SliceFromEnd(s: string, k: nat): (r: string)
    requires k > 0
    ensures |s| <= k ==> r == s
    ensures |s| > k ==> |r| == k
    ensures r == s[|s| - |r|..]
  {
    if |s| <= k then s else s[|s| - k..]
  }

  function DigitChar(d: nat): char
    requires d < 10
  {
    ('0' as int + d) as char
  }

  function DigitValue(c: char): int {
    c as int - '0' as int
  }

  predicate IsDigit(c: char) {
    '0' <= c <= '9'
  }

  /** `String(n)` for a non-negative integer: its decimal digits, most significant first. */
  function NatToString(n: nat): (s: string)
    ensures |s| >= 1
    ensures forall i :: 0 <= i < |s| ==> IsDigit(s[i])
    ensures n >= 10 <==> |s| >= 2
    decreases n
  {
    if n < 10 then [DigitChar(n)] else NatToString(n / 10) + [DigitChar(n % 10)]
  }

  /** The value of a string of decimal digits (the partner of NatToString). */
  function ParseDecimal(s: string): int
    decreases |s|
  {
    if s == [] then 0 else ParseDecimal(s[..|s| - 1]) * 10 + DigitValue(s[|s| - 1])
  }

  /** Reading back the decimal rendering of `n` gives `n`. */
  lemma {:induction false} ParseNatToString(n: nat)
    ensures ParseDecimal(NatToString(n)) == n
    decreases n
  {
    var s := NatToString(n);
    if n < 10 {
      assert s[..0] == [];
    } else {
      ParseNatToString(n / 10);
      assert s[..|s| - 1] == NatToString(n / 10);
    }
  }

  /** Distinct integers have distinct decimal renderings. */
  lemma NatToStringInjective(m: nat, n: nat)
    ensures NatToString(m) == NatToString(n) ==> m == n
  {
    ParseNatToString(m);
    ParseNatToString(n);
  }

  /** Prefixing a common string keeps renderings of distinct integers distinct. */
  lemma PrefixedNatToStringInjective(prefix: string, m: nat, n: nat)
    ensures prefix + NatToString(m) == prefix + NatToString(n) ==> m == n
  {
    if prefix + NatToString(m) == prefix + NatToString(n) {
      assert NatToString(m) == (prefix + NatToString(m))[|prefix|..];
      assert NatToString(n) == (prefix + NatToString(n))[|prefix|..];
      NatToStringInjective(m, n);
    }
  }

  /** 10 to the power `k`. */
  function Pow10(k: nat): (p: nat)
    ensures p >= 1
  {
    if k == 0 then 1 else 10 * Pow10(k - 1)
  }

  /** A positive multiple of `d` is at least `d`. */
  lemma MulAtLeast(d: nat, e: int)
    requires e >= 1
    ensures d * e >= d
  {
    assert d * e == d + d * (e - 1);
  }

  /** A remainder is determined by any decomposition with a small enough rest. */
  lemma ModUnique(n: nat, d: nat, a: nat, c: nat)
    requires d > 0 && c < d && n == d * a + c
    ensures n % d == c
  {
    var a', c' := n / d, n % d;
    assert n == d * a' + c';
    assert d * (a - a') == c' - c by {
      assert d * (a - a') == d * a - d * a';
    }
    if a > a' {
      MulAtLeast(d, a - a');
    } else if a < a' {
      MulAtLeast(d, a' - a);
    }
  }

  /** A string of decimal digits denotes a value below 10^length. */
  lemma {:induction false} ParseDecimalBound(s: string)
    requires forall i :: 0 <= i < |s| ==> IsDigit(s[i])
    ensures 0 <= ParseDecimal(s) < Pow10(|s|)
    decreases |s|
  {
    if s != [] {
      ParseDecimalBound(s[..|s| - 1]);
    }
  }

  /** The value of a concatenation: the digits of `a` shifted left by `|b|` places. */
  lemma {:induction false} ParseDecimalAppend(a: string, b: string)
    ensures ParseDecimal(a + b) == ParseDecimal(a) * Pow10(|b|) + ParseDecimal(b)
    decreases |b|
  {
    if b == [] {
      assert a + b == a;
    } else {
      var b' := b[..|b| - 1];
      assert (a + b)[..|a + b| - 1] == a + b';
      ParseDecimalAppend(a, b');
      var x, y := ParseDecimal(a), Pow10(|b'|);
      assert (x * y + ParseDecimal(b')) * 10 == x * (10 * y) + ParseDecimal(b') * 10;
    }
  }

  /** The last `k` decimal digits of `n` read back as `n` modulo 10^k. */
  lemma {:induction false} LastDigitsValue(n: nat, k: nat)
    requires k <= |NatToString(n)|
    ensures ParseDecimal(NatToString(n)[|NatToString(n)| - k..]) == n % Pow10(k)
  {
    var s := NatToString(n);
    var head, tail := s[..|s| - k], s[|s| - k..];
    var d, h, t := Pow10(k), ParseDecimal(head), ParseDecimal(tail);
    assert n == d * h + t by {
      assert s == head + tail;
      ParseNatToString(n);
      ParseDecimalAppend(head, tail);
      assert |tail| == k;
      assert n == h * d + t;
    }
    assert 0 <= h && 0 <= t < d by {
      ParseDecimalBound(head);
      ParseDecimalBound(tail);
    }
    ModUnique(n, d, h, t);
  }

  /** Pow10 grows with its exponent. */
  lemma {:induction false} Pow10Monotone(i: nat, j: nat)
    requires i <= j
    ensures Pow10(i) <= Pow10(j)
    decreases j - i
  {
    if i < j {
      Pow10Monotone(i, j - 1);
    }
  }

  /** A rendering of two or more digits has no leading zero. */
  lemma {:induction false} NatToStringLowerBound(n: nat)
    requires |NatToString(n)| >= 2
    ensures n >= Pow10(|NatToString(n)| - 1)
    decreases n
  {
    var s' := NatToString(n / 10);
    assert |NatToString(n)| == |s'| + 1;
    if |s'| >= 2 {
      NatToStringLowerBound(n / 10);
    }
  }

  /** `String(n)` has at most `k` digits exactly when n < 10^k. */
  lemma NatToStringLength(n: nat, k: nat)
    requires k >= 1
    ensures |NatToString(n)| <= k <==> n < Pow10(k)
  {
    var s := NatToString(n);
    ParseNatToString(n);
    ParseDecimalBound(s);
    if |s| <= k {
      Pow10Monotone(|s|, k);
    } else {
      NatToStringLowerBound(n);
      Pow10Monotone(k, |s| - 1);
    }
  }
}

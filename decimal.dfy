/** Decimal numerals: the `str(...)` and `int(...)` conversions that almost
    every button performs, with the sign convention of the solver. */
module Decimal {
  import opened Outcomes

  /** 10^k */
  function Pow10(k: nat): (p: nat)
    ensures p >= 1
  {
    if k == 0 then 1 else 10 * Pow10(k - 1)
  }

  lemma {:induction false} Pow10Add(a: nat, b: nat)
    ensures Pow10(a + b) == Pow10(a) * Pow10(b)
  {
    if b > 0 {
      Pow10Add(a, b - 1);
      assert Pow10(a + b) == 10 * Pow10(a + b - 1);
    }
  }

  lemma {:induction false} Pow10Monotone(a: nat, b: nat)
    requires a <= b
    ensures Pow10(a) <= Pow10(b)
  {
    if a < b {
      Pow10Monotone(a, b - 1);
    }
  }

  function Abs(v: int): (r: nat)
    ensures r == v || r == -v
  {
    if v < 0 then -v else v
  }

  /** The solver's `sign`: zero counts as positive. */
  function Sign(v: int): (s: int)
    ensures s == 1 || s == -1
    ensures s == 1 <==> v >= 0
  {
    if v > 0 then 1 else if v < 0 then -1 else 1
  }

  /** `sign(total) * m`, the way every digit button puts the sign back. */
  function Signed(total: int, m: int): int {
    if total < 0 then -m else m
  }

  lemma SignedIsSignTimes(total: int, m: int)
    ensures Signed(total, m) == Sign(total) * m
    ensures Signed(total, Abs(total)) == total
  {
  }

  predicate IsDigit(c: char) {
    '0' <= c <= '9'
  }

  predicate AllDigits(s: string) {
    forall i :: 0 <= i < |s| ==> IsDigit(s[i])
  }

  function CharValue(c: char): int {
    c as int - '0' as int
  }

  function DigitChar(d: nat): (c: char)
    requires d < 10
    ensures IsDigit(c) && CharValue(c) == d
  {
    ('0' as int + d) as char
  }

  /** A numeral as `str` prints a non-negative integer: digits only, and no
      leading zero unless the numeral is "0" itself. */
  predicate Canonical(s: string) {
    |s| >= 1 && AllDigits(s) && (s[0] == '0' ==> |s| == 1)
  }

  /** `str(n)` for n >= 0. */
  function NatStr(n: nat): (s: string)
    ensures Canonical(s)
    ensures s[0] == '0' <==> n == 0
    decreases n
  {
    if n < 10 then [DigitChar(n)] else NatStr(n / 10) + [DigitChar(n % 10)]
  }

  /** The number of decimal digits of n, as `len(str(n))`. */
  function NumDigits(n: nat): nat {
    |NatStr(n)|
  }

  /** `int(s)` for a text of digits (leading zeros allowed). */
  function ParseNat(s: string): nat
    requires AllDigits(s)
  {
    if s == [] then 0 else ParseNat(s[..|s| - 1]) * 10 + CharValue(s[|s| - 1])
  }

  /** `str(v)` for any integer. */
  function Str(v: int): string {
    if v < 0 then "-" + NatStr(-v) else NatStr(v)
  }

  /** u behind a minus sign when neg holds. */
  function WithSign(neg: bool, u: string): string {
    if neg then "-" + u else u
  }

  /** `int(t)` on texts made of an optional sign and at least one ASCII
      digit; every other text reads as `None`, which stands for ValueError.
      Python's `int` also accepts whitespace around the digits, single
      underscores between them and non-ASCII decimal digits; those forms are
      read as `None` here. */
  function ParseInt(t: string): Option<int> {
    if |t| >= 2 && t[0] == '-' && AllDigits(t[1..]) then Some(-(ParseNat(t[1..]) as int))
    else if |t| >= 2 && t[0] == '+' && AllDigits(t[1..]) then Some(ParseNat(t[1..]))
    else if |t| >= 1 && AllDigits(t) then Some(ParseNat(t))
    else None
  }

  /** Reads a numeral that `ParseInt` accepts as `int` does, with 0 standing
      for a text it rejects. */
  function ParseOr0(t: string): int {
    match ParseInt(t)
    case Some(v) => v
    case None => 0
  }

  // ---------------------------------------------------------------------------
  // Round trips between numbers and numerals

  lemma AllDigitsConcat(a: string, b: string)
    requires AllDigits(a) && AllDigits(b)
    ensures AllDigits(a + b)
  {
    var ab := a + b;
    forall i | 0 <= i < |ab| ensures IsDigit(ab[i]) {
      if i < |a| { assert ab[i] == a[i]; } else { assert ab[i] == b[i - |a|]; }
    }
  }

  lemma {:induction false} ParseNatAppend(a: string, b: string)
    requires AllDigits(a) && AllDigits(b)
    ensures AllDigits(a + b)
    ensures ParseNat(a + b) == ParseNat(a) * Pow10(|b|) + ParseNat(b)
    decreases |b|
  {
    AllDigitsConcat(a, b);
    if b == [] {
      assert a + b == a;
    } else {
      var ab := a + b;
      var b' := b[..|b| - 1];
      assert ab[..|ab| - 1] == a + b';
      assert ab[|ab| - 1] == b[|b| - 1];
      ParseNatAppend(a, b');
      var x, y, p, c := ParseNat(a), ParseNat(b'), Pow10(|b'|), CharValue(b[|b| - 1]);
      assert ParseNat(ab) == ParseNat(a + b') * 10 + c;
      assert ParseNat(b) == y * 10 + c;
      assert Pow10(|b|) == p * 10;
      Distrib(x, p, y, c);
    }
  }

  lemma Distrib(x: int, p: int, y: int, c: int)
    ensures (x * p + y) * 10 + c == x * (p * 10) + (y * 10 + c)
  {
  }

  lemma {:induction false} ParseNatBound(s: string)
    requires AllDigits(s)
    ensures ParseNat(s) < Pow10(|s|)
  {
    if s != [] {
      ParseNatBound(s[..|s| - 1]);
    }
  }

  /** A canonical numeral of more than one digit is at least 10^(len-1). */
  lemma {:induction false} ParseNatLower(s: string)
    requires Canonical(s) && s[0] != '0'
    ensures ParseNat(s) >= Pow10(|s| - 1)
  {
    if |s| > 1 {
      var init := s[..|s| - 1];
      assert init[0] == s[0];
      ParseNatLower(init);
    }
  }

  lemma {:induction false} ParseNatStr(n: nat)
    ensures ParseNat(NatStr(n)) == n
    decreases n
  {
    if n >= 10 {
      var s := NatStr(n);
      assert s[..|s| - 1] == NatStr(n / 10);
      ParseNatStr(n / 10);
    }
  }

  lemma {:induction false} StrParseNat(s: string)
    requires Canonical(s)
    ensures NatStr(ParseNat(s)) == s
    decreases |s|
  {
    var d := CharValue(s[|s| - 1]);
    assert DigitChar(d) == s[|s| - 1];
    if |s| > 1 {
      var init := s[..|s| - 1];
      assert init[0] == s[0];
      assert Canonical(init);
      ParseNatLower(init);
      StrParseNat(init);
      var n := ParseNat(s);
      assert n == ParseNat(init) * 10 + d;
      assert n / 10 == ParseNat(init) && n % 10 == d;
      assert s == init + [s[|s| - 1]];
    }
  }

  /** Two numbers with the same numeral are equal: `NatStr` is one-to-one. */
  lemma NatStrInjective(m: nat, n: nat)
    requires NatStr(m) == NatStr(n)
    ensures m == n
  {
    ParseNatStr(m);
    ParseNatStr(n);
  }

  /** A digit text without its leading zeros, down to a last single digit. */
  function StripZeros(s: string): (r: string)
    decreases |s|
  {
    if |s| > 1 && s[0] == '0' then StripZeros(s[1..]) else s
  }

  /** Reading a non-empty digit text and writing the number back gives the
      text without its leading zeros, or "0" when every digit is 0. */
  lemma {:induction false} StripZerosValue(s: string)
    requires |s| >= 1 && AllDigits(s)
    ensures NatStr(ParseNat(s)) == StripZeros(s)
    decreases |s|
  {
    if |s| > 1 && s[0] == '0' {
      StripZerosValue(s[1..]);
      ParseNatAppend("0", s[1..]);
      assert "0" + s[1..] == s;
      assert ParseNat("0") == 0 by {
        assert "0"[..0] == [];
      }
    } else {
      StrParseNat(s);
    }
  }

  /** Dropping leading zeros keeps every other digit, as many times as it
      occurs. */
  lemma {:induction false} StripZerosMultiset(s: string, c: char)
    requires c != '0'
    ensures multiset(StripZeros(s))[c] == multiset(s)[c]
    decreases |s|
  {
    if |s| > 1 && s[0] == '0' {
      StripZerosMultiset(s[1..], c);
      assert s == [s[0]] + s[1..];
    }
  }

  lemma {:induction false} NumDigitsBounds(n: nat)
    ensures n < Pow10(NumDigits(n))
    ensures n >= 1 ==> Pow10(NumDigits(n) - 1) <= n
  {
    ParseNatStr(n);
    ParseNatBound(NatStr(n));
    if n >= 1 {
      ParseNatLower(NatStr(n));
    }
  }

  /** The numeral of n is exactly k digits long when 10^(k-1) <= n < 10^k. */
  lemma {:induction false} NumDigitsExact(n: nat, k: nat)
    requires k >= 1 && n < Pow10(k) && (k == 1 || Pow10(k - 1) <= n)
    ensures NumDigits(n) == k
    decreases k
  {
    if k > 1 {
      assert n >= 10 by { Pow10Monotone(1, k - 1); }
      DivBounds(n, k - 1);
      NumDigitsExact(n / 10, k - 1);
    }
  }

  lemma DivBounds(n: nat, k: nat)
    requires k >= 1 && n < Pow10(k + 1) && (k == 1 || Pow10(k) <= n)
    ensures n / 10 < Pow10(k) && (k == 1 || Pow10(k - 1) <= n / 10)
  {
  }

  lemma ParseIntStr(v: int)
    ensures ParseInt(Str(v)) == Some(v)
  {
    var s := NatStr(Abs(v));
    ParseNatStr(Abs(v));
    assert IsDigit(s[0]);
    if v < 0 {
      var t := "-" + s;
      assert t[1..] == s;
    }
  }

  // ---------------------------------------------------------------------------
  // Digits counted from the right, as `t[-pos - 1]` addresses them

  lemma DivModUnique(a: nat, b: nat, p: nat)
    requires 0 <= b < p
    ensures (a * p + b) / p == a && (a * p + b) % p == b
  {
    var n := a * p + b;
    var q, r := n / p, n % p;
    assert (q - a) * p == b - r;
    MulSmall(q - a, p, b - r);
  }

  lemma MulSmall(x: int, p: int, y: int)
    requires p > 0 && x * p == y && -p < y < p
    ensures x == 0
  {
  }

  /** The digit of n at position `pos` (0 = least significant), by repeated
      division by ten. */
  function DigitAt(n: nat, pos: nat): (d: nat)
    ensures d < 10
  {
    if pos == 0 then n % 10 else DigitAt(n / 10, pos - 1)
  }

  /** `DigitAt` is the character at that position from the right of the numeral. */
  lemma {:induction false} DigitAtChar(n: nat, pos: nat)
    requires pos < NumDigits(n)
    ensures var s := NatStr(n); CharValue(s[|s| - 1 - pos]) == DigitAt(n, pos)
    decreases pos
  {
    var s := NatStr(n);
    if n >= 10 {
      var s' := NatStr(n / 10);
      assert s == s' + [DigitChar(n % 10)];
      if pos > 0 {
        DigitAtChar(n / 10, pos - 1);
        assert s[|s| - 1 - pos] == s'[|s'| - 1 - (pos - 1)];
      }
    }
  }

  /** `DigitAt` is also `n // 10**pos % 10`. */
  lemma {:induction false} DigitAtDiv(n: nat, pos: nat)
    ensures DigitAt(n, pos) == n / Pow10(pos) % 10
    decreases pos
  {
    if pos > 0 {
      DigitAtDiv(n / 10, pos - 1);
      DivDiv(n, 10, Pow10(pos - 1));
    }
  }

  /** `n // 10**pos`, by repeated division by ten. */
  function High(n: nat, pos: nat): nat {
    if pos == 0 then n else High(n / 10, pos - 1)
  }

  /** `n % 10**pos`: the last `pos` digits of n, by repeated division by ten. */
  function Low(n: nat, pos: nat): nat {
    if pos == 0 then 0 else Low(n / 10, pos - 1) * 10 + n % 10
  }

  /** n is High(n, pos) places above Low(n, pos), which fits in `pos` digits. */
  lemma {:induction false} HighLow(n: nat, pos: nat)
    ensures n == High(n, pos) * Pow10(pos) + Low(n, pos)
    ensures Low(n, pos) < Pow10(pos)
    decreases pos
  {
    if pos > 0 {
      HighLow(n / 10, pos - 1);
      ShiftPlace(n, n / 10, High(n / 10, pos - 1), Pow10(pos - 1), Low(n / 10, pos - 1), n % 10);
    }
  }

  lemma ShiftPlace(n: int, q: int, h: int, p: int, l: int, r: int)
    requires n == q * 10 + r && q == h * p + l && 0 <= r < 10 && 0 <= l < p
    ensures n == h * (10 * p) + (l * 10 + r)
    ensures l * 10 + r < 10 * p
  {
  }

  lemma {:induction false} HighSucc(n: nat, pos: nat)
    ensures High(n, pos + 1) == High(n, pos) / 10
    decreases pos
  {
    if pos > 0 {
      HighSucc(n / 10, pos - 1);
    }
  }

  /** `High` and `Low` are the quotient and the remainder by 10^pos. */
  lemma HighLowDiv(n: nat, pos: nat)
    ensures High(n, pos) == n / Pow10(pos) && Low(n, pos) == n % Pow10(pos)
  {
    HighLow(n, pos);
    DivModUnique(High(n, pos), Low(n, pos), Pow10(pos));
  }

  /** Cutting a digit text at k splits its value into `High` and `Low` at
      |s| - k places. */
  lemma {:induction false} SplitHighLow(s: string, k: nat)
    requires AllDigits(s) && k <= |s|
    ensures AllDigits(s[..k]) && AllDigits(s[k..])
    ensures ParseNat(s[..k]) == High(ParseNat(s), |s| - k)
    ensures ParseNat(s[k..]) == Low(ParseNat(s), |s| - k)
    decreases |s| - k
  {
    if k == |s| {
      assert s[..k] == s && s[k..] == [];
    } else {
      var init := s[..|s| - 1];
      var c := CharValue(s[|s| - 1]);
      SplitHighLow(init, k);
      assert init[..k] == s[..k];
      var tail := s[k..];
      assert tail[..|tail| - 1] == init[k..];
      assert tail[|tail| - 1] == s[|s| - 1];
      var x := ParseNat(s);
      assert x == ParseNat(init) * 10 + c;
      assert x / 10 == ParseNat(init) && x % 10 == c;
    }
  }

  /** `SplitHighLow` for the part before k alone, at p = |s| - k places. */
  lemma PrefixValue(s: string, k: nat, n: nat, p: nat)
    requires AllDigits(s) && k <= |s| && ParseNat(s) == n && p == |s| - k
    ensures AllDigits(s[..k]) && ParseNat(s[..k]) == High(n, p)
  {
    SplitHighLow(s, k);
  }

  /** `SplitHighLow` for the part from k on alone, at p = |s| - k places. */
  lemma SuffixValue(s: string, k: nat, n: nat, p: nat)
    requires AllDigits(s) && k <= |s| && ParseNat(s) == n && p == |s| - k
    ensures AllDigits(s[k..]) && ParseNat(s[k..]) == Low(n, p)
  {
    SplitHighLow(s, k);
  }

  lemma DivDiv(n: nat, a: nat, b: nat)
    requires a >= 1 && b >= 1
    ensures n / a / b == n / (a * b)
  {
    var q := n / a / b;
    var r1 := n % a;
    var r2 := (n / a) % b;
    assert n == (q * b + r2) * a + r1;
    assert n == q * (a * b) + (r2 * a + r1);
    assert r2 * a + r1 < a * b by {
      assert r2 * a <= (b - 1) * a;
    }
    DivModUnique(q, r2 * a + r1, a * b);
  }
}

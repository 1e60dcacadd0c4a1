/** What happens to a total after a press and before the next move: a Lock
    pins one digit for a single move, and a portal folds leading digits back
    into the number. */
module Modifiers {
  import opened Outcomes
  import opened Decimal
  import opened Keys

  /** The active lock `{ 'pos': pos, 'digit': digit }`. */
  datatype Latch = Latch(pos: nat, digit: char)

  /** `Lock.get_lock`: a second lock while one is active fails; otherwise the
      lock remembers the digit of |total| at `pos`. */
  function GetLock(total: int, pos: nat, active: Option<Latch>): (r: Outcome<Latch>)
    requires pos < NumDigits(Abs(total))
    ensures r.Fail? <==> active.Some?
    ensures r.Fail? ==> r.error == AlreadyLocked
    ensures !r.Crash?
    ensures r.Ok? ==> r.value.pos == pos && IsDigit(r.value.digit)
    ensures r.Ok? ==> CharValue(r.value.digit) == DigitAt(Abs(total), pos)
  {
    if active.Some? then Fail(AlreadyLocked)
    else
      DigitAtChar(Abs(total), pos);
      Ok(Latch(pos, Digits(total)[|Digits(total)| - 1 - pos]))
  }

  // ---------------------------------------------------------------------------
  // apply_lock

  /** The number zero has no nonzero digit. */
  lemma {:induction false} DigitAtZero(j: nat)
    ensures DigitAt(0, j) == 0
  {
    if j > 0 {
      DigitAtZero(j - 1);
    }
  }

  /** The digit of `int(u)` at position j is the character j places from the
      right of u, and 0 beyond u's length (leading zeros allowed). */
  lemma {:induction false} DigitAtParse(u: string, j: nat)
    requires AllDigits(u)
    ensures DigitAt(ParseNat(u), j) == if j < |u| then CharValue(u[|u| - 1 - j]) else 0
    decreases |u|
  {
    if u == [] {
      DigitAtZero(j);
    } else {
      var init := u[..|u| - 1];
      DivModUnique(ParseNat(init), CharValue(u[|u| - 1]), 10);
      if j > 0 {
        DigitAtParse(init, j - 1);
        if j < |u| {
          assert init[|init| - 1 - (j - 1)] == u[|u| - 1 - j];
        }
      }
    }
  }

  /** A zero in front does not change the value of a digit text. */
  lemma LeadingZero(t: string)
    requires AllDigits(t)
    ensures AllDigits("0" + t) && ParseNat("0" + t) == ParseNat(t)
  {
    ParseNatAppend("0", t);
    assert ParseNat("0") == 0 by {
      assert "0"[..0] == [];
    }
  }

  /** The total whose magnitude has the latch's digit in place of its own
      digit at `pos`, with the sign of `total`. */
  function Locked(total: int, latch: Latch): int
    requires IsDigit(latch.digit)
  {
    Sign(total) * (Abs(total) + (CharValue(latch.digit) - DigitAt(Abs(total), latch.pos)) * Pow10(latch.pos))
  }

  /** `apply_lock(total, pos, digit)`: pad |total| with zeros up to pos + 1
      digits, overwrite the digit at pos, and put the sign back.  Every other
      digit stays as it was. */
  method ApplyLock(total: int, latch: Latch) returns (r: int)
    requires IsDigit(latch.digit)
    ensures r == Locked(total, latch)
    ensures r == Sign(total) * Abs(r)
    ensures DigitAt(Abs(r), latch.pos) == CharValue(latch.digit)
    ensures forall j :: j != latch.pos ==> DigitAt(Abs(r), j) == DigitAt(Abs(total), j)
  {
    var t := Digits(total);
    ParseNatStr(Abs(total));
    var missing := latch.pos + 1 - |t|;
    var k := 0;
    while k < missing
      invariant AllDigits(t) && ParseNat(t) == Abs(total)
      invariant |t| == |Digits(total)| + k
    {
      LeadingZero(t);
      t := "0" + t;
      k := k + 1;
    }
    var u := t[|t| - 1 - latch.pos := latch.digit];
    r := Sign(total) * ParseNat(u);
    UnitTimes(Sign(total), ParseNat(u));
    OverwriteDigit(t, latch.pos, latch.digit, u);
    OverwriteValue(t, latch.pos, latch.digit, u);
  }

  /** A sign times a magnitude has that magnitude. */
  lemma UnitTimes(s: int, m: nat)
    requires s == 1 || s == -1
    ensures Abs(s * m) == m
  {
  }

  /** Overwriting a digit changes the value by the difference of the digits
      times the place value. */
  lemma {:induction false} OverwriteValue(t: string, pos: nat, c: char, u: string)
    requires AllDigits(t) && pos < |t| && IsDigit(c) && u == t[|t| - 1 - pos := c]
    ensures AllDigits(u)
    ensures ParseNat(u) == ParseNat(t) + (CharValue(c) - DigitAt(ParseNat(t), pos)) * Pow10(pos)
  {
    assert DigitAt(ParseNat(t), pos) == CharValue(t[|t| - 1 - pos]) by {
      DigitAtParse(t, pos);
    }
    assert |t| - 1 - (|t| - 1 - pos) == pos;
    ParseNatUpdate(t, |t| - 1 - pos, c);
    SameFactor(ParseNat(u), ParseNat(t), CharValue(c) - CharValue(t[|t| - 1 - pos]),
      CharValue(c) - DigitAt(ParseNat(t), pos), Pow10(pos));
  }

  lemma SameFactor(a: int, b: int, x: int, y: int, p: int)
    requires a == b + x * p && x == y
    ensures a == b + y * p
  {
  }

  /** Changing one character of a digit text changes its value by the
      difference of the digits times the place value. */
  lemma {:induction false} ParseNatUpdate(t: string, k: nat, c: char)
    requires AllDigits(t) && k < |t| && IsDigit(c)
    ensures AllDigits(t[k := c])
    ensures ParseNat(t[k := c]) == ParseNat(t) + (CharValue(c) - CharValue(t[k])) * Pow10(|t| - 1 - k)
    decreases |t|
  {
    if k == |t| - 1 {
      assert t[k := c][..k] == t[..k];
    } else {
      assert t[k := c][..|t| - 1] == t[..|t| - 1][k := c];
      ParseNatUpdate(t[..|t| - 1], k, c);
      PlaceShift(ParseNat(t[..|t| - 1]), CharValue(c) - CharValue(t[k]), Pow10(|t| - 2 - k), CharValue(t[|t| - 1]));
    }
  }

  lemma PlaceShift(a: int, d: int, q: int, last: int)
    ensures (a + d * q) * 10 + last == a * 10 + last + d * (10 * q)
  {
  }

  /** Overwriting the character `pos` places from the right of a digit text
      sets that digit of its value and keeps all others. */
  lemma {:induction false} OverwriteDigit(t: string, pos: nat, c: char, u: string)
    requires AllDigits(t) && pos < |t| && IsDigit(c) && u == t[|t| - 1 - pos := c]
    ensures AllDigits(u) && DigitAt(ParseNat(u), pos) == CharValue(c)
    ensures forall j :: j != pos ==> DigitAt(ParseNat(u), j) == DigitAt(ParseNat(t), j)
  {
    DigitAtParse(u, pos);
    forall j | j != pos ensures DigitAt(ParseNat(u), j) == DigitAt(ParseNat(t), j) {
      DigitAtParse(u, j);
      DigitAtParse(t, j);
    }
  }

  // ---------------------------------------------------------------------------
  // do_portal

  /** One turn of the portal loop on a numeral longer than `left`: the
      leading digit d is dropped and d * 10^right added to the rest. */
  function FoldOnce(n: nat, right: nat): nat
    requires NumDigits(n) >= 2
  {
    ParseNat(NatStr(n)[1..]) + CharValue(NatStr(n)[0]) * Pow10(right)
  }

  /** The leading digit and the rest of a numeral of k + 1 >= 2 digits, as
      quotient and remainder by 10^k. */
  lemma LeadAndRest(n: nat, k: nat)
    requires k >= 1 && NumDigits(n) == k + 1
    ensures CharValue(NatStr(n)[0]) == n / Pow10(k)
    ensures ParseNat(NatStr(n)[1..]) == n % Pow10(k)
    ensures 1 <= n / Pow10(k)
  {
    assert High(n, k) == n / Pow10(k) && Low(n, k) == n % Pow10(k) by {
      HighLowDiv(n, k);
    }
    assert ParseNat(NatStr(n)[..1]) == High(n, k) && ParseNat(NatStr(n)[1..]) == Low(n, k) by {
      ParseNatStr(n);
      PrefixValue(NatStr(n), 1, n, k);
      SuffixValue(NatStr(n), 1, n, k);
    }
    assert ParseNat(NatStr(n)[..1]) == CharValue(NatStr(n)[0]) by {
      assert NatStr(n)[..1][..0] == [];
    }
    assert NatStr(n)[0] != '0';
  }

  /** Folding the leading digit to a lower place makes the number smaller
      but keeps it positive. */
  lemma FoldOnceShrinks(n: nat, right: nat)
    requires NumDigits(n) >= 2 && right < NumDigits(n) - 1
    ensures 0 < FoldOnce(n, right) < n
  {
    FoldShrinks(n, right, NumDigits(n) - 1);
  }

  lemma FoldShrinks(n: nat, right: nat, k: nat)
    requires k >= 1 && NumDigits(n) == k + 1 && right < k
    ensures 0 < FoldOnce(n, right) < n
  {
    LeadAndRest(n, k);
    assert 10 * Pow10(right) <= Pow10(k) by {
      Pow10Monotone(right + 1, k);
    }
    FoldArith(n, Pow10(k), Pow10(right));
  }

  lemma FoldArith(n: nat, p: nat, q: nat)
    requires p > 0 && n / p >= 1 && 10 * q <= p && q >= 1
    ensures 0 < n % p + n / p * q < n
  {
    var d, rest := n / p, n % p;
    assert n == d * p + rest;
    assert d * q < d * p by {
      assert d * p >= d * (10 * q);
    }
  }

  /** The number the portal loop ends with. */
  function PortalFold(n: nat, left: nat, right: nat): (r: nat)
    requires right < left
    ensures NumDigits(r) <= left
    ensures r <= n
    ensures n > 0 ==> r > 0
    decreases n
  {
    if NumDigits(n) <= left then n
    else
      FoldOnceShrinks(n, right);
      PortalFold(FoldOnce(n, right), left, right)
  }

  /** `do_portal(total, left, right)`, for a portal that lets digits through
      below its entry (right < left). */
  method DoPortal(total: int, left: nat, right: nat) returns (r: int)
    requires right < left
    ensures r == Sign(total) * PortalFold(Abs(total), left, right)
  {
    var s := Sign(total);
    var n: nat := Abs(total);
    var t := NatStr(n);
    var step := Pow10(right);
    var m: nat := n;
    while |t| > left
      invariant t == NatStr(m) && PortalFold(m, left, right) == PortalFold(n, left, right)
      decreases m
    {
      FoldOnceShrinks(m, right);
      assert IsDigit(t[0]);
      var d := CharValue(t[0]);
      t := t[1..];
      m := ParseNat(t) + d * step;
      t := NatStr(m);
    }
    ParseNatStr(m);
    r := s * ParseNat(t);
  }

  /** A portal leaves a total that already fits alone, so a second portal
      changes nothing. */
  lemma PortalIdempotent(n: nat, left: nat, right: nat)
    requires right < left
    ensures PortalFold(PortalFold(n, left, right), left, right) == PortalFold(n, left, right)
  {
  }

  /** With left = 2 and right = 0, 321 becomes 21 + 3 = 24. */
  lemma PortalOn321()
    ensures PortalFold(321, 2, 0) == 24
  {
    assert NatStr(321) == "321";
    assert NatStr(24) == "24";
    assert ParseNat("21") == 21;
  }
}

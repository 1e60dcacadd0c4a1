/** The `press` of every button kind whose press only computes a new total
    (Add, Sub, Mul, Div, Backspace, Num, Convert/Cut, Pow, Sign, Reverse, Sum,
    ShiftLeft, ShiftRight, Mirror, Inv10, Sort, Delete, Insert, Round, DigitAdd,
    DigitSub, Replace, Shift), each with the property that says what it means. */
module Keys {
  import opened Outcomes
  import opened Decimal
  import opened Text

  /** `str(abs(total))`, the numeral that most buttons edit. */
  function Digits(total: int): (s: string)
    ensures Canonical(s)
  {
    NatStr(Abs(total))
  }

  /** A digit text without a leading zero, given the sign of total, is the
      numeral of a value with that sign. */
  lemma SignedDigits(total: int, u: string)
    requires |u| >= 1 && AllDigits(u) && u[0] != '0'
    ensures Digits(Signed(total, ParseNat(u))) == u
    ensures Signed(total, ParseNat(u)) < 0 <==> total < 0
  {
    assert ParseNat(u) >= 1 by { ParseNatLower(u); }
    assert NatStr(ParseNat(u)) == u by { StrParseNat(u); }
    SignedMagnitude(total, ParseNat(u));
  }

  /** `int(t)` as the buttons call it: a numeral's value, or ValueError. */
  function IntOf(t: string): (r: Outcome<int>)
    ensures !r.Fail?
  {
    match ParseInt(t)
    case Some(v) => Ok(v)
    case None => Crash(ValueError)
  }

  /** `int(t)` yields v exactly when t reads as v. */
  lemma IntOfSome(t: string, v: int)
    ensures IntOf(t) == Ok(v) <==> ParseInt(t) == Some(v)
  {
  }

  // ---------------------------------------------------------------------------
  // Reading numerals with a sign in front

  /** `int` of a minus sign (or nothing) followed by digits. */
  lemma ParseSigned(neg: bool, u: string)
    requires |u| >= 1 && AllDigits(u)
    ensures ParseInt(WithSign(neg, u)) == Some(if neg then -(ParseNat(u) as int) else ParseNat(u))
  {
    if neg {
      ParseMinus(u);
    } else {
      ParsePlain(u);
    }
  }

  lemma ParseMinus(u: string)
    requires |u| >= 1 && AllDigits(u)
    ensures ParseInt("-" + u) == Some(-(ParseNat(u) as int))
  {
    var t := "-" + u;
    assert t[0] == '-' && t[1..] == u;
  }

  lemma ParsePlain(u: string)
    requires |u| >= 1 && AllDigits(u)
    ensures ParseInt(u) == Some(ParseNat(u) as int)
  {
    assert IsDigit(u[0]);
  }

  /** The numeral of total is its sign text followed by its digits. */
  lemma StrSplit(total: int)
    ensures Str(total) == WithSign(total < 0, Digits(total))
  {
  }

  /** The value of a numeral a + mid + b, read by places: x, m and y are the
      values of the three parts, pmb and pb the place values of mid + b and b. */
  lemma Splice(a: string, mid: string, b: string, x: nat, m: nat, y: nat, lb: nat, pmb: nat, pb: nat)
    requires AllDigits(a) && AllDigits(mid) && AllDigits(b)
    requires ParseNat(a) == x && ParseNat(mid) == m && ParseNat(b) == y
    requires |b| == lb && Pow10(|mid| + lb) == pmb && Pow10(lb) == pb
    ensures AllDigits(a + mid + b)
    ensures ParseNat(a + mid + b) == x * pmb + m * pb + y
  {
    ParseNatAppend(a, mid);
    ParseNatAppend(a + mid, b);
    assert a + mid + b == (a + mid) + b;
    Pow10Add(|mid|, lb);
    Regroup(x, m, Pow10(|mid|), pb, y, pmb);
  }

  lemma Regroup(x: int, m: int, pm: int, pb: int, y: int, pmb: int)
    requires pmb == pm * pb
    ensures (x * pm + m) * pb + y == x * pmb + m * pb + y
  {
  }

  /** Changing the character at index k of a digit text to c changes its
      value by the difference of the two digits, at their place. */
  lemma {:induction false} SpliceDigit(s: string, k: nat, c: char)
    requires AllDigits(s) && k < |s| && IsDigit(c)
    ensures AllDigits(s[k := c])
    ensures ParseNat(s[k := c]) == ParseNat(s) + (CharValue(c) - CharValue(s[k])) * Pow10(|s| - 1 - k)
    decreases |s|
  {
    var t := s[k := c];
    var init, tinit := s[..|s| - 1], t[..|t| - 1];
    if k == |s| - 1 {
      assert tinit == init;
    } else {
      assert tinit == init[k := c];
      SpliceDigit(init, k, c);
      assert t[|t| - 1] == s[|s| - 1];
      Shift10(ParseNat(t), ParseNat(tinit), ParseNat(init), ParseNat(s), CharValue(c) - CharValue(s[k]),
        Pow10(|init| - 1 - k), CharValue(s[|s| - 1]));
    }
  }

  /** One more digit y at the end moves a change d at place p to place 10 p. */
  lemma Shift10(vt: int, vti: int, vi: int, vs: int, d: int, p: int, y: int)
    requires vt == vti * 10 + y && vti == vi + d * p && vs == vi * 10 + y
    ensures vt == vs + d * (10 * p)
  {
  }

  lemma SingleDigit(c: char)
    requires IsDigit(c)
    ensures AllDigits([c]) && ParseNat([c]) == CharValue(c)
  {
    assert [c][..0] == [];
  }

  // ---------------------------------------------------------------------------
  // Arithmetic buttons

  /** Div: fails with 'aliquant' unless the total divides evenly; a divisor
      of zero raises ZeroDivisionError. */
  function DivPress(total: int, divisor: int): (r: Outcome<int>)
    ensures r.Crash? <==> divisor == 0
    ensures r.Fail? <==> divisor != 0 && total % divisor != 0
    ensures r.Fail? ==> r.error == Aliquant
    ensures r.Ok? ==> r.value * divisor == total
  {
    if divisor == 0 then Crash(ZeroDivision)
    else if total % divisor != 0 then Fail(Aliquant)
    else Ok(total / divisor)
  }

  /** Pow: `total ** exp` for a non-negative exponent. */
  function Power(total: int, exp: nat): int {
    if exp == 0 then 1 else total * Power(total, exp - 1)
  }

  // ---------------------------------------------------------------------------
  // Buttons that edit the numeral

  /** Backspace: drop the last digit, keep the sign. */
  function BackspacePress(total: int): int {
    Signed(total, Abs(total) / 10)
  }

  lemma BackspaceDropsLastDigit(total: int)
    ensures NumDigits(Abs(total)) == 1 ==> BackspacePress(total) == 0
    ensures NumDigits(Abs(total)) >= 2 ==>
      && Digits(BackspacePress(total)) == Digits(total)[..NumDigits(Abs(total)) - 1]
      && Sign(BackspacePress(total)) == Sign(total)
  {
    var n := Abs(total);
    if n >= 10 {
      assert Abs(BackspacePress(total)) == n / 10;
    }
  }

  /** Num: append the button's number to the numeral of the total. */
  function NumPress(total: int, value: int): Outcome<int> {
    IntOf(Str(total) + Str(value))
  }

  lemma NumAppendsDigits(total: int, value: int)
    ensures value >= 0 ==>
      NumPress(total, value) == Ok(Signed(total, Abs(total) * Pow10(NumDigits(value)) + value))
    ensures value < 0 ==> NumPress(total, value) == Crash(ValueError)
  {
    if value >= 0 {
      NumAppendsNatural(total, value);
    } else {
      MinusInside(Str(total), Str(value));
    }
  }

  lemma NumAppendsNatural(total: int, value: nat)
    ensures NumPress(total, value) == Ok(Signed(total, Abs(total) * Pow10(NumDigits(value)) + value))
  {
    var n := Abs(total);
    var s, v := Digits(total), NatStr(value);
    var t := Str(total) + Str(value);
    NumText(total, value, s, v, t);
    ParseNatStr(n);
    ParseNatStr(value);
    AppendSigned(total, s, v, n, value);
  }

  /** The text Num reads: the sign of total, then its digits, then the digits
      of the button's number. */
  lemma NumText(total: int, value: nat, s: string, v: string, t: string)
    requires s == Digits(total) && v == NatStr(value) && t == Str(total) + Str(value)
    ensures t == WithSign(total < 0, s + v)
  {
    StrSplit(total);
    if total < 0 {
      assert ("-" + s) + v == "-" + (s + v);
    }
  }

  /** `int` of a sign text followed by the digits s and then the digits v. */
  lemma AppendSigned(total: int, s: string, v: string, n: nat, m: nat)
    requires |s| >= 1 && AllDigits(s) && AllDigits(v) && ParseNat(s) == n && ParseNat(v) == m
    ensures ParseInt(WithSign(total < 0, s + v)) == Some(Signed(total, n * Pow10(|v|) + m))
  {
    ParseNatAppend(s, v);
    var x := ParseNat(s + v);
    assert x == n * Pow10(|v|) + m;
    SignedNumeral(total, s + v, x);
  }

  /** `int` reads an optional minus sign (present when total is negative)
      followed by digits of value x as x with the sign of total. */
  lemma SignedNumeral(total: int, u: string, x: nat)
    requires |u| >= 1 && AllDigits(u) && ParseNat(u) == x
    ensures ParseInt(WithSign(total < 0, u)) == Some(Signed(total, x))
  {
    ParseSigned(total < 0, u);
  }

  /** `IntOf` of a text w made of an optional minus sign (present when total
      is negative) and digits of value x. */
  lemma IntOfSigned(total: int, w: string, u: string, x: nat)
    requires |u| >= 1 && AllDigits(u) && ParseNat(u) == x && w == WithSign(total < 0, u)
    ensures IntOf(w) == Ok(Signed(total, x))
  {
    SignedNumeral(total, u, x);
  }

  /** A minus sign after the first character is not a numeral. */
  lemma MinusInside(a: string, b: string)
    requires |a| >= 1 && |b| >= 1 && b[0] == '-'
    ensures ParseInt(a + b) == None
  {
    var t := a + b;
    assert t[|a|] == '-';
    if |t| >= 2 && (t[0] == '-' || t[0] == '+') {
      assert t[1..][|a| - 1] == '-';
      assert !IsDigit(t[1..][|a| - 1]);
    } else {
      assert !IsDigit(t[|a|]);
    }
  }

  /** Reverse: the digits in reverse order (trailing zeros vanish), same sign. */
  function ReversePress(total: int): int {
    Signed(total, ParseNat(Rev(Digits(total))))
  }

  /** Reversing twice gives the total back when its last digit is not zero. */
  lemma ReverseTwice(total: int)
    requires total == 0 || Abs(total) % 10 != 0
    ensures ReversePress(ReversePress(total)) == total
  {
    var s := Digits(total);
    ParseNatStr(Abs(total));
    if total != 0 {
      assert AllDigits(Rev(s)) && Rev(s)[0] != '0' by {
        RevDigits(s);
        DigitAtChar(Abs(total), 0);
        assert Rev(s)[0] == s[|s| - 1];
      }
      SignedDigits(total, Rev(s));
      RevRev(s);
    }
  }

  /** Sum: the sum of the digits, same sign. */
  function SumPress(total: int): int {
    Signed(total, DigitSum(Digits(total)))
  }

  lemma SumCastsOutNines(total: int)
    ensures Abs(SumPress(total)) % 9 == Abs(total) % 9
    ensures Abs(SumPress(total)) <= Abs(total)
    ensures total >= 0 ==> SumPress(total) >= 0
    ensures total < 0 ==> SumPress(total) <= 0
  {
    DigitSumMod9(Abs(total));
  }

  /** ShiftLeft: move the first digit to the end. */
  function ShiftLeftPress(total: int): int {
    var s := Digits(total);
    Signed(total, ParseNat(s[1..] + [s[0]]))
  }

  /** ShiftRight: move the last digit to the front. */
  function ShiftRightPress(total: int): int {
    var s := Digits(total);
    Signed(total, ParseNat([s[|s| - 1]] + s[..|s| - 1]))
  }

  /** A left shift is undone by a right shift unless it brought a zero to the
      front (which `int` then drops). */
  lemma ShiftLeftThenRight(total: int)
    requires NumDigits(Abs(total)) < 2 || Digits(total)[1] != '0'
    ensures ShiftRightPress(ShiftLeftPress(total)) == total
  {
    var s := Digits(total);
    var u := s[1..] + [s[0]];
    ParseNatStr(Abs(total));
    if |s| == 1 {
      assert u == s;
      assert [s[0]] + s[..0] == s;
    } else {
      assert AllDigits(u) && u[0] != '0' by {
        AllDigitsConcat(s[1..], [s[0]]);
      }
      assert ShiftLeftPress(total) < 0 <==> total < 0 by {
        SignedDigits(total, u);
      }
      assert ShiftRightPress(ShiftLeftPress(total)) == Signed(ShiftLeftPress(total), ParseNat(s)) by {
        SignedDigits(total, u);
        assert [u[|u| - 1]] + u[..|u| - 1] == s;
      }
    }
  }

  /** A right shift is undone by a left shift unless the last digit was a zero. */
  lemma ShiftRightThenLeft(total: int)
    requires total == 0 || Abs(total) % 10 != 0
    ensures ShiftLeftPress(ShiftRightPress(total)) == total
  {
    var s := Digits(total);
    var u := [s[|s| - 1]] + s[..|s| - 1];
    ParseNatStr(Abs(total));
    if total == 0 {
      assert u == s;
    } else {
      assert AllDigits(u) && u[0] != '0' by {
        AllDigitsConcat([s[|s| - 1]], s[..|s| - 1]);
        DigitAtChar(Abs(total), 0);
      }
      SignedDigits(total, u);
      assert u[1..] + [u[0]] == s;
    }
  }

  /** Mirror: append the reversed digits. */
  function MirrorPress(total: int): int {
    var s := Digits(total);
    Signed(total, ParseNat(s + Rev(s)))
  }

  /** The mirrored numeral is a palindrome twice as long that starts with the
      original digits. */
  lemma MirrorPalindrome(total: int)
    requires total != 0
    ensures var m := Digits(MirrorPress(total));
      && |m| == 2 * NumDigits(Abs(total))
      && m[..NumDigits(Abs(total))] == Digits(total)
      && Rev(m) == m
      && Sign(MirrorPress(total)) == Sign(total)
  {
    var s := Digits(total);
    var u := s + Rev(s);
    assert AllDigits(u) && u[0] != '0' by {
      RevDigits(s);
      AllDigitsConcat(s, Rev(s));
    }
    SignedDigits(total, u);
    MirrorIsPalindrome(s, u);
  }

  lemma MirrorIsPalindrome(s: string, u: string)
    requires u == s + Rev(s)
    ensures Rev(u) == u
  {
    forall i | 0 <= i < |u| ensures Rev(u)[i] == u[i] {
      if i < |s| {
        assert Rev(u)[i] == u[|u| - 1 - i] == Rev(s)[|s| - 1 - i];
      }
    }
  }

  /** Inv10: every digit d outside {0, 5} becomes 10 - d; the sign stays. */
  function Inv10Press(total: int): Outcome<int> {
    IntOf(InvertAll(Str(total)))
  }

  /** Inv10 never fails and is its own inverse. */
  lemma Inv10Involutive(total: int)
    ensures Inv10Press(total).Ok?
    ensures Inv10Press(Inv10Press(total).value) == Ok(total)
  {
    var s := Digits(total);
    var inv := InvertAll(s);
    InvertAllCanonical(s);
    var u := Signed(total, ParseNat(inv));
    Inv10Once(total, s, inv, u);
    Inv10Back(total, s, inv, u);
  }

  /** One press inverts the digits and keeps the sign. */
  lemma Inv10Once(total: int, s: string, inv: string, u: int)
    requires s == Digits(total) && inv == InvertAll(s) && Canonical(inv)
    requires u == Signed(total, ParseNat(inv))
    ensures Inv10Press(total) == Ok(u)
    ensures Str(u) == WithSign(total < 0, inv)
  {
    StrSplit(total);
    InvertSigned(total, s, Str(total));
    if total < 0 {
      InvertCharInvolutive(s[0]);
    }
    SignedStr(total, inv, u);
  }

  /** A second press inverts the inverted digits back. */
  lemma Inv10Back(total: int, s: string, inv: string, u: int)
    requires s == Digits(total) && inv == InvertAll(s) && Canonical(inv)
    requires Str(u) == WithSign(total < 0, inv)
    ensures Inv10Press(u) == Ok(total)
  {
    InvertSigned(total, inv, Str(u));
    InvertAllInvolutive(s);
    ParseNatStr(Abs(total));
  }

  /** Inverting the digits behind an optional minus sign (present when total
      is negative) gives a numeral that `int` reads with the sign of total. */
  lemma InvertSigned(total: int, s: string, t: string)
    requires Canonical(s) && t == WithSign(total < 0, s)
    ensures Canonical(InvertAll(s))
    ensures InvertAll(t) == WithSign(total < 0, InvertAll(s))
    ensures ParseInt(InvertAll(t)) == Some(Signed(total, ParseNat(InvertAll(s))))
  {
    assert InvertAll(t) == WithSign(total < 0, InvertAll(s)) by {
      if total < 0 {
        InvertAllConcat("-", s);
        assert InvertAll("-") == "-";
      }
    }
    assert Canonical(InvertAll(s)) by { InvertAllCanonical(s); }
    SignedNumeral(total, InvertAll(s), ParseNat(InvertAll(s)));
  }

  /** The numeral of `Signed(total, ParseNat(s))` is s behind the sign of
      total, when s is canonical and not "0" for a negative total. */
  lemma SignedStr(total: int, s: string, u: int)
    requires Canonical(s) && (total < 0 ==> s[0] != '0') && u == Signed(total, ParseNat(s))
    ensures Str(u) == WithSign(total < 0, s)
  {
    StrParseNat(s);
    if total < 0 {
      ParseNatLower(s);
      assert Str(u) == "-" + NatStr(ParseNat(s));
    }
  }

  /** Sort: the digits in ascending order (leading zeros then vanish), or in
      descending order; the sign stays. */
  function SortPress(total: int, desc: bool): int {
    var s := Sorted(Digits(total));
    MultisetDigits(Digits(total), s);
    RevDigits(s);
    Signed(total, ParseNat(if desc then Rev(s) else s))
  }

  /** Sorting in descending order keeps every digit and orders them. */
  lemma SortDescKeepsDigits(total: int)
    ensures var m := Digits(SortPress(total, true));
      && multiset(m) == multiset(Digits(total))
      && (forall i, j :: 0 <= i < j < |m| ==> m[i] >= m[j])
  {
    var s := Digits(total);
    var d := Rev(Sorted(s));
    assert Canonical(d) by { DescendingDigits(s); }
    assert Abs(SortPress(total, true)) == ParseNat(d);
    assert Digits(SortPress(total, true)) == d by { StrParseNat(d); }
    DescendingDigits(s);
  }

  /** Sorting in ascending order brings the zeros to the front, where `int`
      drops them: the result's numeral is the sorted digits without their
      leading zeros, still ascending, with every nonzero digit as often as
      in the total, and the sign of the total. */
  lemma SortAscDropsZeros(total: int)
    ensures Digits(SortPress(total, false)) == StripZeros(Sorted(Digits(total)))
    ensures Ascending(Digits(SortPress(total, false)))
    ensures forall c :: c != '0' ==> multiset(Digits(SortPress(total, false)))[c] == multiset(Digits(total))[c]
    ensures SortPress(total, false) != 0 ==> Sign(SortPress(total, false)) == Sign(total)
  {
    var s := Sorted(Digits(total));
    assert AllDigits(s) && |s| >= 1 by {
      MultisetDigits(Digits(total), s);
      SortedLength(Digits(total));
    }
    SignedMagnitude(total, ParseNat(s));
    StripZerosValue(s);
    StripZerosAscending(s);
    forall c | c != '0'
      ensures multiset(Digits(SortPress(total, false)))[c] == multiset(Digits(total))[c]
    {
      StripZerosMultiset(s, c);
    }
  }

  /** Dropping leading zeros keeps a text ascending. */
  lemma {:induction false} StripZerosAscending(s: string)
    requires Ascending(s)
    ensures Ascending(StripZeros(s))
    decreases |s|
  {
    if |s| > 1 && s[0] == '0' {
      assert Ascending(s[1..]);
      StripZerosAscending(s[1..]);
    }
  }

  /** The digits of a canonical numeral in descending order form a canonical
      numeral with the same digits. */
  lemma DescendingDigits(s: string)
    requires Canonical(s)
    ensures var d := Rev(Sorted(s));
      && Canonical(d)
      && multiset(d) == multiset(s)
      && (forall i, j :: 0 <= i < j < |d| ==> d[i] >= d[j])
  {
    var sorted := Sorted(s);
    DescendingCanonical(s);
    RevMultiset(sorted);
    RevDescending(sorted);
  }

  lemma DescendingCanonical(s: string)
    requires Canonical(s)
    ensures Canonical(Rev(Sorted(s)))
  {
    DescendingAllDigits(s);
    if s[0] != '0' {
      assert IsDigit(s[0]);
      DescendingLead(s);
    }
  }

  lemma DescendingAllDigits(s: string)
    requires AllDigits(s)
    ensures |Rev(Sorted(s))| == |s| && AllDigits(Rev(Sorted(s)))
  {
    var sorted := Sorted(s);
    SortedLength(s);
    MultisetDigits(s, sorted);
    RevDigits(sorted);
  }

  /** The largest digit comes first, so a numeral with a non-zero digit does
      not start with a zero once sorted in descending order. */
  lemma DescendingLead(s: string)
    requires s != [] && '0' < s[0]
    ensures Rev(Sorted(s)) != [] && Rev(Sorted(s))[0] != '0'
  {
    var sorted := Sorted(s);
    SortedLength(s);
    assert Rev(sorted)[0] == sorted[|sorted| - 1];
    assert s[0] in multiset(sorted) by { assert s[0] in multiset(s); }
    LastIsLargest(sorted, s[0]);
  }

  lemma RevDescending(s: string)
    requires Ascending(s)
    ensures forall i, j :: 0 <= i < j < |Rev(s)| ==> Rev(s)[i] >= Rev(s)[j]
  {
    var d := Rev(s);
    forall i, j | 0 <= i < j < |d| ensures d[i] >= d[j] {
      assert d[i] == s[|s| - 1 - i] && d[j] == s[|s| - 1 - j];
    }
  }

  /** The last character of an ascending text is at least any of its characters. */
  lemma LastIsLargest(s: string, c: char)
    requires Ascending(s) && c in multiset(s)
    ensures c <= s[|s| - 1]
  {
    var k :| 0 <= k < |s| && s[k] == c;
  }

  lemma {:induction false} RevMultiset(s: string)
    ensures multiset(Rev(s)) == multiset(s)
  {
    if s != [] {
      RevMultiset(s[1..]);
      assert s == [s[0]] + s[1..];
    }
  }

  // ---------------------------------------------------------------------------
  // Buttons that act at a digit position (0 = least significant)

  /** Delete: remove the digit at `pos`; `High` and `Low` are the quotient and
      remainder by 10^pos (`HighLowDiv`). */
  function DeletePress(total: int, pos: nat): int {
    var base := Pow10(pos);
    var n := Abs(total);
    Signed(total, High(n, pos) / 10 * base + Low(n, pos))
  }

  /** Delete removes exactly the digit at `pos` from the numeral. */
  lemma DeleteRemovesDigit(total: int, pos: nat)
    requires pos < NumDigits(Abs(total))
    ensures var s := Digits(total); var k := |s| - 1 - pos;
      AllDigits(s[..k] + s[k + 1..]) &&
      DeletePress(total, pos) == Signed(total, ParseNat(s[..k] + s[k + 1..]))
  {
    var n := Abs(total);
    ParseNatStr(n);
    DeleteDigits(NatStr(n), pos);
  }

  /** Removing the character at `pos` from the right of a digit text. */
  lemma DeleteDigits(s: string, pos: nat)
    requires AllDigits(s) && pos < |s|
    ensures var k := |s| - 1 - pos; var n := ParseNat(s);
      AllDigits(s[..k] + s[k + 1..]) &&
      ParseNat(s[..k] + s[k + 1..]) == High(n, pos) / 10 * Pow10(pos) + Low(n, pos)
  {
    var k := |s| - 1 - pos;
    var n := ParseNat(s);
    var a, b := s[..k], s[k + 1..];
    PrefixValue(s, k, n, pos + 1);
    SuffixValue(s, k + 1, n, pos);
    HighSucc(n, pos);
    assert |b| == pos;
    ParseNatAppend(a, b);
  }

  lemma DeleteOn120()
    ensures DeletePress(120, 0) == 12 && DeletePress(120, 1) == 10 && DeletePress(120, 2) == 20
  {
  }

  /** Insert: put the button's number in front of the `pos` last digits. */
  function InsertPress(total: int, pos: nat, value: int): int {
    var base := Pow10(pos);
    var baseMid := Pow10(|Str(value)|);
    var n := Abs(total);
    var left, right := High(n, pos), Low(n, pos);
    Signed(total, left * base * baseMid + value * base + right)
  }

  /** For a non-negative number, Insert splices its numeral into the digits. */
  lemma InsertSplicesNumeral(total: int, pos: nat, value: int)
    requires value >= 0 && pos <= NumDigits(Abs(total))
    ensures var s := Digits(total); var k := |s| - pos;
      AllDigits(s[..k] + NatStr(value) + s[k..]) &&
      InsertPress(total, pos, value) == Signed(total, ParseNat(s[..k] + NatStr(value) + s[k..]))
  {
    var n := Abs(total);
    var s, v := NatStr(n), NatStr(value);
    var k := |s| - pos;
    var u := s[..k] + v + s[k..];
    var x, y := High(n, pos), Low(n, pos);
    var e := x * Pow10(pos) * Pow10(|v|) + value * Pow10(pos) + y;
    InsertNumerals(pos, value, n, s, v, k, u);
    InsertPlaces(ParseNat(u), x, pos, |v|, value, y, e);
    InsertPressValue(total, pos, value, n, v, e);
  }

  /** `InsertPress` with the numeral v of the button's number named. */
  lemma InsertPressValue(total: int, pos: nat, value: int, n: nat, v: string, e: int)
    requires value >= 0 && n == Abs(total) && v == NatStr(value)
    requires e == High(n, pos) * Pow10(pos) * Pow10(|v|) + value * Pow10(pos) + Low(n, pos)
    ensures InsertPress(total, pos, value) == Signed(total, e)
  {
    assert Str(value) == v;
  }

  /** `InsertDigits` on the numerals of n and of value. */
  lemma InsertNumerals(pos: nat, value: nat, n: nat, s: string, v: string, k: nat, u: string)
    requires s == NatStr(n) && v == NatStr(value) && pos <= |s| && k == |s| - pos && u == s[..k] + v + s[k..]
    ensures AllDigits(u)
    ensures ParseNat(u) == High(n, pos) * Pow10(|v| + pos) + value * Pow10(pos) + Low(n, pos)
  {
    ParseNatStr(n);
    ParseNatStr(value);
    InsertDigits(s, v, value, pos, n, k, u);
  }

  /** Splicing the digit text v of value m in front of the last `pos` digits
      of the digit text s. */
  lemma InsertDigits(s: string, v: string, m: nat, pos: nat, n: nat, k: nat, u: string)
    requires AllDigits(s) && pos <= |s| && AllDigits(v) && ParseNat(v) == m && ParseNat(s) == n
    requires k == |s| - pos && u == s[..k] + v + s[k..]
    ensures AllDigits(u)
    ensures ParseNat(u) == High(n, pos) * Pow10(|v| + pos) + m * Pow10(pos) + Low(n, pos)
  {
    var a, b := s[..k], s[k..];
    var x, y := High(n, pos), Low(n, pos);
    PrefixValue(s, k, n, pos);
    SuffixValue(s, k, n, pos);
    Splice(a, v, b, x, m, y, pos, Pow10(|v| + pos), Pow10(pos));
  }

  /** A value read with x shifted by `lv + pos` places is the one with x
      shifted by `pos` and then by `lv` places. */
  lemma InsertPlaces(r: int, x: int, pos: nat, lv: nat, m: int, y: int, e: int)
    requires r == x * Pow10(lv + pos) + m * Pow10(pos) + y
    requires e == x * Pow10(pos) * Pow10(lv) + m * Pow10(pos) + y
    ensures r == e
  {
    Pow10Add(lv, pos);
  }

  /** Round: round half up at 10^pos. */
  function RoundPress(total: int, pos: nat): int {
    Signed(total, RoundedHigh(Abs(total), pos) * Pow10(pos))
  }

  /** `left` of the source (n // 10^pos), plus one when `right` (n % 10^pos)
      reaches half of 10^pos. */
  function RoundedHigh(n: nat, pos: nat): nat {
    if Low(n, pos) >= Pow10(pos) / 2 then High(n, pos) + 1 else High(n, pos)
  }

  /** From position 1 on, Round gives the nearest multiple of 10^pos (its last
      `pos` digits are zeros), halves rounded away from zero. */
  lemma RoundToNearest(total: int, pos: nat)
    requires pos >= 1
    ensures var r := Abs(RoundPress(total, pos)); var base := Pow10(pos);
      && Low(r, pos) == 0
      && -(base / 2) < r - Abs(total) <= base / 2
      && (RoundPress(total, pos) != 0 ==> Sign(RoundPress(total, pos)) == Sign(total))
  {
    HighLow(Abs(total), pos);
    EvenPower(pos, Pow10(pos));
    RoundArith(Abs(total), High(Abs(total), pos), Low(Abs(total), pos), Pow10(pos), Pow10(pos) / 2,
      RoundedHigh(Abs(total), pos));
    LowOfMultiple(RoundedHigh(Abs(total), pos), pos);
    SignedMagnitude(total, RoundedHigh(Abs(total), pos) * Pow10(pos));
  }

  /** From position 1 on, 10^pos is even. */
  lemma EvenPower(pos: nat, base: nat)
    requires pos >= 1 && base == Pow10(pos)
    ensures base == 2 * (base / 2)
  {
    assert base == 5 * Pow10(pos - 1) * 2;
    DivModUnique(5 * Pow10(pos - 1), 0, 2);
  }

  /** A magnitude x given the sign of total keeps x as its absolute value and,
      unless zero, the sign of total. */
  lemma SignedMagnitude(total: int, x: nat)
    ensures Abs(Signed(total, x)) == x
    ensures Signed(total, x) != 0 ==> Sign(Signed(total, x)) == Sign(total)
  {
  }

  lemma RoundArith(n: int, left: int, right: int, base: int, half: int, q: int)
    requires n == left * base + right && 0 <= left && 0 <= right < base && base == 2 * half
    requires q == if right >= half then left + 1 else left
    ensures q * base >= 0
    ensures -half < q * base - n <= half
  {
    if right >= half {
      assert q * base == left * base + base;
    }
  }

  /** A multiple of 10^pos ends in `pos` zeros. */
  lemma LowOfMultiple(q: nat, pos: nat)
    ensures Low(q * Pow10(pos), pos) == 0 && High(q * Pow10(pos), pos) == q
  {
    HighLowDiv(q * Pow10(pos), pos);
    DivModUnique(q, 0, Pow10(pos));
  }

  /** At position 0 the half of 10^0 is 0, so Round adds one away from zero. */
  lemma RoundAtZeroAddsOne(total: int)
    ensures RoundPress(total, 0) == total + Sign(total)
  {
  }

  /** The new digit at `pos` computed as the source does, from the old one:
      a 0 counts as 10, and the result is |d + value| mod 10. */
  function DigitAddDigit(d: int, value: int): (r: nat)
    ensures r < 10
  {
    Abs((if d == 0 then 10 else d) + value) % 10
  }

  /** DigitAdd (and DigitSub, which holds the negated number): the digit d at
      `pos` becomes `DigitAddDigit(d, value)`. */
  function DigitAddPress(total: int, pos: nat, value: int): Outcome<int>
    requires pos < NumDigits(Abs(total))
  {
    StrSplit(total);
    DigitAddText(Str(total), pos, value)
  }

  /** DigitAdd on the text of a numeral, `pos` counted from its right end. */
  function DigitAddText(t: string, pos: nat, value: int): Outcome<int>
    requires pos < |t|
  {
    var k := |t| - 1 - pos;
    IntOf(t[k := DigitChar(DigitAddDigit(CharValue(t[k]), value))])
  }

  /** DigitAdd changes one digit and nothing else: the digit d at `pos`
      (which is also `Abs(total) / Pow10(pos) % 10`, by `DigitAtDiv`) becomes
      `DigitAddDigit(d, value)`. */
  lemma DigitAddChangesOneDigit(total: int, pos: nat, value: int, d: nat)
    requires pos < NumDigits(Abs(total)) && d == DigitAt(Abs(total), pos)
    ensures Abs(total) + (DigitAddDigit(d, value) - d) * Pow10(pos) >= 0
    ensures DigitAddPress(total, pos, value)
         == Ok(Signed(total, Abs(total) + (DigitAddDigit(d, value) - d) * Pow10(pos)))
  {
    StrSplit(total);
    ParseNatStr(Abs(total));
    DigitAtChar(Abs(total), pos);
    DigitAddSigned(total, NatStr(Abs(total)), Str(total), Abs(total), pos, value, d);
  }

  /** DigitAdd on an optional minus sign (present when total is negative)
      followed by a digit text s of value n whose digit at `pos` is d. */
  lemma DigitAddSigned(total: int, s: string, t: string, n: nat, pos: nat, value: int, d: int)
    requires AllDigits(s) && ParseNat(s) == n && pos < |s|
    requires t == WithSign(total < 0, s)
    requires CharValue(s[|s| - 1 - pos]) == d
    ensures n + (DigitAddDigit(d, value) - d) * Pow10(pos) >= 0
    ensures DigitAddText(t, pos, value) == Ok(Signed(total, n + (DigitAddDigit(d, value) - d) * Pow10(pos)))
  {
    var c := DigitChar(DigitAddDigit(d, value));
    var m := n + (DigitAddDigit(d, value) - d) * Pow10(pos);
    assert DigitAddText(t, pos, value) == IntOf(t[|t| - 1 - pos := c]) by {
      SignedCharAt(total < 0, s, t, pos);
      DigitAddTextAt(t, pos, value, d);
    }
    assert t[|t| - 1 - pos := c] == WithSign(total < 0, s[|s| - 1 - pos := c]) by {
      SignedUpdate(total < 0, s, t, pos, c);
    }
    assert m >= 0 && ParseInt(WithSign(total < 0, s[|s| - 1 - pos := c])) == Some(Signed(total, m)) by {
      EditDigits(total, s, n, pos, c, DigitAddDigit(d, value) - d);
    }
    IntOfSome(t[|t| - 1 - pos := c], Signed(total, m));
  }

  lemma DigitAddTextAt(t: string, pos: nat, value: int, d: int)
    requires pos < |t| && CharValue(t[|t| - 1 - pos]) == d
    ensures DigitAddText(t, pos, value) == IntOf(t[|t| - 1 - pos := DigitChar(DigitAddDigit(d, value))])
  {
  }

  /** Writing digit c at `pos` of a digit text s of value n and putting the
      sign of total in front reads back as n changed by delta = c - (the old
      digit) at that place, with the sign of total. */
  lemma EditDigits(total: int, s: string, n: nat, pos: nat, c: char, delta: int)
    requires AllDigits(s) && ParseNat(s) == n && pos < |s| && IsDigit(c)
    requires delta == CharValue(c) - CharValue(s[|s| - 1 - pos])
    ensures n + delta * Pow10(pos) >= 0
    ensures ParseInt(WithSign(total < 0, s[|s| - 1 - pos := c])) == Some(Signed(total, n + delta * Pow10(pos)))
  {
    SpliceDigitAt(s, |s| - 1 - pos, c, pos, delta);
    SignedNumeral(total, s[|s| - 1 - pos := c], n + delta * Pow10(pos));
  }

  /** The character at `pos` from the right of a signed text is that of its digits. */
  lemma SignedCharAt(neg: bool, s: string, t: string, pos: nat)
    requires pos < |s| && t == WithSign(neg, s)
    ensures |t| - 1 - pos >= 0 && t[|t| - 1 - pos] == s[|s| - 1 - pos]
  {
  }

  /** Writing at `pos` from the right of a signed text writes into its digits. */
  lemma SignedUpdate(neg: bool, s: string, t: string, pos: nat, c: char)
    requires pos < |s| && t == WithSign(neg, s)
    ensures |t| - 1 - pos >= 0 && t[|t| - 1 - pos := c] == WithSign(neg, s[|s| - 1 - pos := c])
  {
    if neg {
      assert t[|t| - 1 - pos := c] == "-" + s[|s| - 1 - pos := c];
    }
  }

  /** `SpliceDigit` with the place e and the change of digit delta named. */
  lemma SpliceDigitAt(s: string, k: nat, c: char, e: nat, delta: int)
    requires AllDigits(s) && k < |s| && IsDigit(c)
    requires e == |s| - 1 - k && delta == CharValue(c) - CharValue(s[k])
    ensures AllDigits(s[k := c])
    ensures ParseNat(s[k := c]) == ParseNat(s) + delta * Pow10(e)
  {
    SpliceDigit(s, k, c);
  }

  lemma DigitAddQuirk()
    ensures DigitAddPress(1, 0, -3) == Ok(2)
    ensures DigitAddPress(10, 0, 5) == Ok(15)
  {
    DigitAddChangesOneDigit(1, 0, -3, 1);
    DigitAddChangesOneDigit(10, 0, 5, 0);
  }

  /** Replace: the digit at `pos` becomes the numeral of the button's number. */
  function ReplacePress(total: int, pos: nat, value: int): Outcome<int>
    requires pos < NumDigits(Abs(total))
  {
    StrSplit(total);
    ReplaceOnText(Str(total), pos, Str(value))
  }

  /** Replace on the text of a numeral, `pos` counted from its right end. */
  function ReplaceOnText(t: string, pos: nat, v: string): Outcome<int>
    requires pos < |t|
  {
    var k := |t| - 1 - pos;
    IntOf(t[..k] + v + t[k + 1..])
  }

  /** For a non-negative number the digit at `pos` is replaced by its digits. */
  lemma ReplaceSplicesNumeral(total: int, pos: nat, value: int)
    requires pos < NumDigits(Abs(total)) && value >= 0
    ensures var n := Abs(total);
      var m := High(n, pos + 1) * Pow10(NumDigits(value) + pos) + value * Pow10(pos) + Low(n, pos);
      ReplacePress(total, pos, value) == Ok(Signed(total, m))
  {
    StrSplit(total);
    ParseNatStr(Abs(total));
    ParseNatStr(value);
    assert Str(value) == NatStr(value);
    ReplaceSigned(total, NatStr(Abs(total)), Str(total), Abs(total), NatStr(value), value, pos);
  }

  /** Replace on an optional minus sign (present when total is negative)
      followed by a digit text s of value n, with the digit text v of value m. */
  lemma ReplaceSigned(total: int, s: string, t: string, n: nat, v: string, m: nat, pos: nat)
    requires AllDigits(s) && ParseNat(s) == n && pos < |s|
    requires |v| >= 1 && AllDigits(v) && ParseNat(v) == m
    requires t == WithSign(total < 0, s)
    ensures ReplaceOnText(t, pos, v)
         == Ok(Signed(total, High(n, pos + 1) * Pow10(|v| + pos) + m * Pow10(pos) + Low(n, pos)))
  {
    var k, k0 := |t| - 1 - pos, |s| - 1 - pos;
    ReplaceText(total < 0, s, t, v, pos, k, k0, t[..k] + v + t[k + 1..], s[..k0] + v + s[k0 + 1..]);
    ReplaceDigits(s, v, m, pos, n, k0, s[..k0] + v + s[k0 + 1..]);
    IntOfSigned(total, t[..k] + v + t[k + 1..], s[..k0] + v + s[k0 + 1..],
      High(n, pos + 1) * Pow10(|v| + pos) + m * Pow10(pos) + Low(n, pos));
  }

  /** Replacing the character at `pos` from the right of a sign text followed
      by digits only touches the digits. */
  lemma ReplaceText(neg: bool, s: string, t: string, v: string, pos: nat, k: nat, k0: nat, w: string, u: string)
    requires pos < |s| && t == WithSign(neg, s)
    requires k == |t| - 1 - pos && k0 == |s| - 1 - pos
    requires w == t[..k] + v + t[k + 1..] && u == s[..k0] + v + s[k0 + 1..]
    ensures w == WithSign(neg, u)
  {
    if neg {
      assert t[..k] == "-" + s[..k0];
      assert t[k + 1..] == s[k0 + 1..];
      assert ("-" + s[..k0]) + v + s[k0 + 1..] == "-" + (s[..k0] + v + s[k0 + 1..]);
    }
  }

  /** Splicing the digit text v of value m in place of the character at `pos`
      from the right of the digit text s. */
  lemma ReplaceDigits(s: string, v: string, m: nat, pos: nat, n: nat, k: nat, u: string)
    requires AllDigits(s) && pos < |s| && AllDigits(v) && ParseNat(v) == m && ParseNat(s) == n
    requires k == |s| - 1 - pos && u == s[..k] + v + s[k + 1..]
    ensures AllDigits(u)
    ensures ParseNat(u) == High(n, pos + 1) * Pow10(|v| + pos) + m * Pow10(pos) + Low(n, pos)
  {
    var a, b := s[..k], s[k + 1..];
    var x, y := High(n, pos + 1), Low(n, pos);
    PrefixValue(s, k, n, pos + 1);
    SuffixValue(s, k + 1, n, pos);
    assert |b| == pos;
    Splice(a, v, b, x, m, y, pos, Pow10(|v| + pos), Pow10(pos));
  }

  // ---------------------------------------------------------------------------
  // Convert and Cut

  /** Convert (and Cut, whose replacement is empty): every occurrence of the
      pattern in the signed numeral is replaced; an empty or bare-minus result
      reads as 0. */
  function ConvertPress(total: int, pattern: string, to: string): (r: Outcome<int>)
    ensures r.Fail? <==> !Contains(Str(total), pattern)
    ensures r.Fail? ==> r.error == PatternNotFound
  {
    var text := Str(total);
    if !Contains(text, pattern) then Fail(PatternNotFound)
    else
      var t := ReplaceAll(text, pattern, to);
      if t == "" || t == "-" then Ok(0)
      else IntOf(t)
  }

  /** Converting a pattern that occurs into itself leaves the total as it is. */
  lemma ConvertToItself(total: int, pattern: string)
    requires Contains(Str(total), pattern)
    ensures ConvertPress(total, pattern, pattern) == Ok(total)
  {
    ReplaceSelf(Str(total), pattern);
    ParseIntStr(total);
    StrSplit(total);
  }

  // ---------------------------------------------------------------------------
  // Shift: a planned sequence of single rotations

  /** What `Shift.press` computes for an action text: '<' is a left shift, '>'
      a right shift, ' ', ',' and ';' are separators, anything else fails. */
  function RunActions(total: int, actions: string): Outcome<int>
    decreases |actions|
  {
    if actions == [] then Ok(total)
    else if !KnownAction(actions[0]) then Fail(UnknownAction)
    else RunActions(Act(total, actions[0]), actions[1..])
  }

  predicate KnownAction(c: char) {
    c in "<> ,;"
  }

  /** One action of a Shift press. */
  function Act(total: int, c: char): int {
    if c == '<' then ShiftLeftPress(total)
    else if c == '>' then ShiftRightPress(total)
    else total
  }

  method ShiftPress(total: int, actions: string) returns (r: Outcome<int>)
    ensures r == RunActions(total, actions)
  {
    var t := total;
    var i := 0;
    while i < |actions|
      invariant 0 <= i <= |actions|
      invariant RunActions(total, actions) == RunActions(t, actions[i..])
    {
      assert actions[i..][1..] == actions[i + 1..];
      var act := actions[i];
      if act == '<' {
        t := ShiftLeftPress(t);
      } else if act == '>' {
        t := ShiftRightPress(t);
      } else if act in " ,;" {
      } else {
        return Fail(UnknownAction);
      }
      i := i + 1;
    }
    return Ok(t);
  }

  /** A Shift press fails exactly when the text holds a character that is not
      an action, and never raises. */
  lemma {:induction false} RunActionsFailsIff(total: int, actions: string)
    ensures RunActions(total, actions).Fail? <==> exists i :: 0 <= i < |actions| && !KnownAction(actions[i])
    ensures !RunActions(total, actions).Crash?
    decreases |actions|
  {
    if actions != [] {
      RunActionsFailsIff(Act(total, actions[0]), actions[1..]);
      UnknownSplit(actions);
    }
  }

  /** Some character of a non-empty text is unknown iff its head is or some
      character of its tail is. */
  lemma UnknownSplit(actions: string)
    requires actions != []
    ensures (exists i :: 0 <= i < |actions| && !KnownAction(actions[i]))
        <==> !KnownAction(actions[0]) || exists i :: 0 <= i < |actions[1..]| && !KnownAction(actions[1..][i])
  {
    if exists i :: 0 <= i < |actions| && !KnownAction(actions[i]) {
      var i :| 0 <= i < |actions| && !KnownAction(actions[i]);
      if i > 0 { assert !KnownAction(actions[1..][i - 1]); }
    }
    if exists i :: 0 <= i < |actions[1..]| && !KnownAction(actions[1..][i]) {
      var i :| 0 <= i < |actions[1..]| && !KnownAction(actions[1..][i]);
      assert !KnownAction(actions[i + 1]);
    }
  }
}

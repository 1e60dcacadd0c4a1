/** The string operations the buttons perform on numerals: reversal, sorting,
    digit sums, substring search and `str.replace`. */
module Text {
  import opened Decimal

  /** The characters of s in reverse order. */
  function Rev(s: string): (r: string)
    ensures |r| == |s|
    ensures forall i :: 0 <= i < |s| ==> r[i] == s[|s| - 1 - i]
  {
    if s == [] then [] else Rev(s[1..]) + [s[0]]
  }

  lemma RevRev(s: string)
    ensures Rev(Rev(s)) == s
  {
    var r := Rev(Rev(s));
    assert |r| == |s|;
    forall i | 0 <= i < |s| ensures r[i] == s[i] {
    }
  }

  lemma RevDigits(s: string)
    requires AllDigits(s)
    ensures AllDigits(Rev(s))
  {
    var r := Rev(s);
    forall i | 0 <= i < |r| ensures IsDigit(r[i]) {
      assert r[i] == s[|s| - 1 - i];
    }
  }

  /** The sum of the digits of a numeral. */
  function DigitSum(s: string): nat
    requires AllDigits(s)
  {
    if s == [] then 0 else DigitSum(s[..|s| - 1]) + CharValue(s[|s| - 1])
  }

  /** Casting out nines: the digit sum of n is congruent to n modulo 9, and
      never exceeds n. */
  lemma {:induction false} DigitSumMod9(n: nat)
    ensures DigitSum(NatStr(n)) % 9 == n % 9
    ensures DigitSum(NatStr(n)) <= n
    decreases n
  {
    if n >= 10 {
      var s := NatStr(n);
      assert s[..|s| - 1] == NatStr(n / 10);
      DigitSumMod9(n / 10);
      var q := n / 10;
      var d := n % 10;
      assert DigitSum(s) == DigitSum(NatStr(q)) + d;
      Mod9Step(DigitSum(NatStr(q)), q, d);
    }
  }

  /** If a and q agree modulo 9, so do a + d and 10 * q + d. */
  lemma Mod9Step(a: nat, q: nat, d: nat)
    requires a % 9 == q % 9
    ensures (a + d) % 9 == (10 * q + d) % 9
  {
    var k, m := a / 9, q / 9;
    var r := a % 9;
    assert a == 9 * k + r && q == 9 * m + r;
    assert a + d == 9 * k + (r + d);
    assert 10 * q + d == 9 * (10 * m + r) + (r + d);
    ModShift(k, r + d);
    ModShift(10 * m + r, r + d);
  }

  lemma ModShift(k: nat, x: nat)
    ensures (9 * k + x) % 9 == x % 9
  {
    DivModUnique(k + x / 9, x % 9, 9);
    assert 9 * k + x == (k + x / 9) * 9 + x % 9;
  }

  // ---------------------------------------------------------------------------
  // Sorting the digits (`sorted(...)`)

  predicate Ascending(s: string) {
    forall i, j :: 0 <= i < j < |s| ==> s[i] <= s[j]
  }

  /** Inserts c into an ascending text, before the first character not below it. */
  function InsertSorted(c: char, s: string): string {
    if s == [] || c <= s[0] then [c] + s else [s[0]] + InsertSorted(c, s[1..])
  }

  lemma {:induction false} InsertSortedProps(c: char, s: string)
    requires Ascending(s)
    ensures Ascending(InsertSorted(c, s))
    ensures multiset(InsertSorted(c, s)) == multiset(s) + multiset{c}
  {
    InsertSortedPerm(c, s);
    InsertSortedAscending(c, s);
  }

  lemma {:induction false} InsertSortedPerm(c: char, s: string)
    ensures multiset(InsertSorted(c, s)) == multiset(s) + multiset{c}
  {
    if s != [] && c > s[0] {
      InsertSortedPerm(c, s[1..]);
      assert s == [s[0]] + s[1..];
    }
  }

  lemma {:induction false} InsertSortedAscending(c: char, s: string)
    requires Ascending(s)
    ensures Ascending(InsertSorted(c, s))
  {
    var r := InsertSorted(c, s);
    if s == [] || c <= s[0] {
      forall i, j | 0 <= i < j < |r| ensures r[i] <= r[j] {
        if i > 0 { assert r[i] == s[i - 1] && r[j] == s[j - 1]; }
        else { assert r[j] == s[j - 1]; }
      }
    } else {
      var rest := InsertSorted(c, s[1..]);
      assert Ascending(s[1..]);
      InsertSortedAscending(c, s[1..]);
      InsertedAbove(c, s);
      assert r == [s[0]] + rest;
      forall i, j | 0 <= i < j < |r| ensures r[i] <= r[j] {
        assert r[j] == rest[j - 1];
        if i > 0 { assert r[i] == rest[i - 1]; }
      }
    }
  }

  /** Inserting a character above the head keeps every character of the
      result above the head. */
  lemma InsertedAbove(c: char, s: string)
    requires Ascending(s) && s != [] && c > s[0]
    ensures forall j :: 0 <= j < |InsertSorted(c, s[1..])| ==> s[0] <= InsertSorted(c, s[1..])[j]
  {
    var rest := InsertSorted(c, s[1..]);
    InsertSortedPerm(c, s[1..]);
    forall j | 0 <= j < |rest| ensures s[0] <= rest[j] {
      assert rest[j] in multiset(rest);
      if rest[j] != c {
        assert rest[j] in multiset(s[1..]);
        var k :| 0 <= k < |s[1..]| && s[1..][k] == rest[j];
        assert s[k + 1] == rest[j];
      }
    }
  }

  /** `sorted(s)`: the characters of s in ascending order, by insertion. */
  function Sorted(s: string): (r: string)
    ensures Ascending(r)
    ensures multiset(r) == multiset(s)
  {
    if s == [] then []
    else
      var rest := Sorted(s[1..]);
      InsertSortedProps(s[0], rest);
      assert s == [s[0]] + s[1..];
      InsertSorted(s[0], rest)
  }

  lemma SortedLength(s: string)
    ensures |Sorted(s)| == |s|
  {
    assert |multiset(Sorted(s))| == |multiset(s)|;
  }

  lemma MultisetDigits(s: string, t: string)
    requires AllDigits(s) && multiset(t) == multiset(s)
    ensures AllDigits(t)
  {
    forall i | 0 <= i < |t| ensures IsDigit(t[i]) {
      assert t[i] in multiset(t);
      assert t[i] in multiset(s);
      var j :| 0 <= j < |s| && s[j] == t[i];
    }
  }

  // ---------------------------------------------------------------------------
  // Inv10: every digit d other than 0 and 5 becomes 10 - d

  function InvertChar(c: char): (r: char) {
    if c in "12346789" then DigitChar(10 - CharValue(c) as nat) else c
  }

  lemma InvertCharInvolutive(c: char)
    ensures InvertChar(InvertChar(c)) == c
    ensures IsDigit(c) <==> IsDigit(InvertChar(c))
    ensures InvertChar(c) == '0' <==> c == '0'
    ensures InvertChar(c) == '-' <==> c == '-'
  {
  }

  function InvertAll(s: string): (r: string)
    ensures |r| == |s|
    ensures forall i :: 0 <= i < |s| ==> r[i] == InvertChar(s[i])
  {
    if s == [] then [] else [InvertChar(s[0])] + InvertAll(s[1..])
  }

  lemma InvertAllInvolutive(s: string)
    ensures InvertAll(InvertAll(s)) == s
  {
    var r := InvertAll(InvertAll(s));
    forall i | 0 <= i < |s| ensures r[i] == s[i] {
      InvertCharInvolutive(s[i]);
    }
  }

  lemma InvertAllCanonical(s: string)
    requires Canonical(s)
    ensures Canonical(InvertAll(s))
  {
    var r := InvertAll(s);
    forall i | 0 <= i < |r| ensures IsDigit(r[i]) {
      InvertCharInvolutive(s[i]);
    }
    InvertCharInvolutive(s[0]);
  }

  lemma InvertAllConcat(a: string, b: string)
    ensures InvertAll(a + b) == InvertAll(a) + InvertAll(b)
  {
    var l, r := InvertAll(a + b), InvertAll(a) + InvertAll(b);
    forall i | 0 <= i < |l| ensures l[i] == r[i] {
      if i < |a| { assert (a + b)[i] == a[i]; } else { assert (a + b)[i] == b[i - |a|]; }
    }
  }

  // ---------------------------------------------------------------------------
  // Substrings and `str.replace`

  /** `p in s` for texts. */
  predicate Contains(s: string, p: string)
    decreases |s|
  {
    (|p| <= |s| && s[..|p|] == p) || (s != [] && Contains(s[1..], p))
  }

  /** `s.replace(p, to)`: every non-overlapping occurrence of p, scanning from
      the left, becomes `to`; an empty p puts `to` around every character. */
  function ReplaceAll(s: string, p: string, to: string): string
    decreases |s|
  {
    if p == [] then Interleave(s, to)
    else if |p| <= |s| && s[..|p|] == p then to + ReplaceAll(s[|p|..], p, to)
    else if s == [] then []
    else [s[0]] + ReplaceAll(s[1..], p, to)
  }

  function Interleave(s: string, to: string): string {
    if s == [] then to else to + [s[0]] + Interleave(s[1..], to)
  }

  /** A pattern that does not occur leaves the text unchanged. */
  lemma {:induction false} ReplaceAbsent(s: string, p: string, to: string)
    requires p != [] && !Contains(s, p)
    ensures ReplaceAll(s, p, to) == s
    decreases |s|
  {
    if s != [] {
      ReplaceAbsent(s[1..], p, to);
      assert s == [s[0]] + s[1..];
    }
  }

  /** Replacing a pattern by itself changes nothing. */
  lemma {:induction false} ReplaceSelf(s: string, p: string)
    ensures ReplaceAll(s, p, p) == s
    decreases |s|
  {
    if p == [] {
      InterleaveEmpty(s);
    } else if |p| <= |s| && s[..|p|] == p {
      ReplaceSelf(s[|p|..], p);
      assert s == s[..|p|] + s[|p|..];
    } else if s != [] {
      ReplaceSelf(s[1..], p);
      assert s == [s[0]] + s[1..];
    }
  }

  lemma {:induction false} InterleaveEmpty(s: string)
    ensures Interleave(s, []) == s
  {
    if s != [] {
      InterleaveEmpty(s[1..]);
      assert s == [s[0]] + s[1..];
    }
  }

  /** Cutting an occurring pattern shortens the text. */
  lemma {:induction false} CutShortens(s: string, p: string)
    requires p != [] && Contains(s, p)
    ensures |ReplaceAll(s, p, [])| <= |s| - |p|
    decreases |s|
  {
    if |p| <= |s| && s[..|p|] == p {
      CutNeverLengthens(s[|p|..], p);
    } else {
      CutShortens(s[1..], p);
    }
  }

  lemma {:induction false} CutNeverLengthens(s: string, p: string)
    requires p != []
    ensures |ReplaceAll(s, p, [])| <= |s|
    decreases |s|
  {
    if |p| <= |s| && s[..|p|] == p {
      CutNeverLengthens(s[|p|..], p);
    } else if s != [] {
      CutNeverLengthens(s[1..], p);
    }
  }
}

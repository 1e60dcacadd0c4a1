/** The trials one level of the search makes: the (button, parameters) pairs
    of `iter_buttons`, and the on/off choices for the Store buttons that
    `itertools.product` enumerates. */
module Trials {
  import opened Decimal
  import opened Panel

  /** Button `index` of the list, pressed with `param`. */
  datatype Trial = Trial(index: nat, param: Param)

  /** `range(lo, hi)` as digit positions. */
  function Positions(lo: nat, hi: nat): (r: seq<Param>)
    ensures |r| == if lo <= hi then hi - lo else 0
    ensures forall k :: 0 <= k < |r| ==> r[k] == At(lo + k)
    decreases if lo <= hi then hi - lo else 0
  {
    if lo >= hi then [] else [At(lo)] + Positions(lo + 1, hi)
  }

  /** The kinds `iter_buttons` treats alike. */
  datatype TrialRule = EachDigit | EachGap | EachInner | ActionGroups | BothPresses | OnePlain

  function TrialRuleOf(kind: Kind): TrialRule {
    match kind
    case Delete | DigitAdd | DigitSub | Replace | Lock => EachDigit
    case Insert => EachGap
    case Round => EachInner
    case Shift => ActionGroups
    case StoreV2 => BothPresses
    case _ => OnePlain
  }

  /** The parameters `iter_buttons` gives one button for a total; the action
      strings of Shift come from `groups`, which stands for
      `Shift.iter_action_groups`. */
  function TrialsOf(kind: Kind, total: int, groups: int -> seq<string>): seq<Param> {
    match TrialRuleOf(kind)
    case EachDigit => Positions(0, NumDigits(Abs(total)))
    case EachGap => Positions(0, NumDigits(Abs(total)) + 1)
    case EachInner => Positions(1, NumDigits(Abs(total)))
    case ActionGroups => seq(|groups(total)|, k requires 0 <= k < |groups(total)| => Actions(groups(total)[k]))
    case BothPresses => [LongPress, Plain]
    case OnePlain => [Plain]
  }

  /** How many trials each kind gets, and which: one per digit position for
      Delete, DigitAdd, DigitSub, Replace and Lock; one more for Insert; one
      fewer, from position 1, for Round; a long press and then a plain press
      for StoreV2; one plain press for the rest. This is the table of
      counts read off `TrialRuleOf`; the proofs about the enumeration are
      `IterButtonsMembers` and `IterButtonsFit`. */
  lemma TrialCounts(kind: Kind, total: int, groups: int -> seq<string>)
    ensures var len, ps := NumDigits(Abs(total)), TrialsOf(kind, total, groups);
      && (kind in {Delete, DigitAdd, DigitSub, Replace, Lock} ==>
            |ps| == len && forall k :: 0 <= k < len ==> ps[k] == At(k))
      && (kind == Insert ==> |ps| == len + 1 && forall k :: 0 <= k <= len ==> ps[k] == At(k))
      && (kind == Round ==> |ps| == len - 1 && forall k :: 0 <= k < len - 1 ==> ps[k] == At(k + 1))
      && (kind == StoreV2 ==> ps == [LongPress, Plain])
      && (kind == Shift ==> |ps| == |groups(total)|)
      && (TrialRuleOf(kind) == OnePlain ==> ps == [Plain])
  {
    assert NumDigits(Abs(total)) >= 1;
  }

  /** Every trial passes the keyword arguments its kind's `press` expects. */
  lemma TrialsFit(kind: Kind, total: int, groups: int -> seq<string>, p: Param)
    requires p in TrialsOf(kind, total, groups)
    ensures Fits(kind, p, total)
  {
  }

  /** The trials of button j, tagged with its index. */
  function Tagged(j: nat, ps: seq<Param>): (r: seq<Trial>)
    ensures |r| == |ps| && forall k :: 0 <= k < |ps| ==> r[k] == Trial(j, ps[k])
  {
    seq(|ps|, k requires 0 <= k < |ps| => Trial(j, ps[k]))
  }

  /** `iter_buttons(total, buttons)`: the trials of every button, button by
      button in list order. */
  function IterButtons(total: int, kinds: seq<Kind>, groups: int -> seq<string>): seq<Trial>
    decreases |kinds|
  {
    if kinds == [] then []
    else
      var n := |kinds| - 1;
      IterButtons(total, kinds[..n], groups) + Tagged(n, TrialsOf(kinds[n], total, groups))
  }

  /** A trial comes out of `iter_buttons` exactly when it is one of the
      trials of its button. */
  lemma {:induction false} IterButtonsMembers(total: int, kinds: seq<Kind>, groups: int -> seq<string>)
    ensures forall t :: t in IterButtons(total, kinds, groups) <==>
      t.index < |kinds| && t.param in TrialsOf(kinds[t.index], total, groups)
    decreases |kinds|
  {
    if kinds != [] {
      IterButtonsMembers(total, kinds[..|kinds| - 1], groups);
      forall t: Trial ensures t in IterButtons(total, kinds, groups) <==>
        t.index < |kinds| && t.param in TrialsOf(kinds[t.index], total, groups)
      {
        TaggedMember(t, |kinds| - 1, TrialsOf(kinds[|kinds| - 1], total, groups));
        if t.index < |kinds| - 1 {
          assert kinds[..|kinds| - 1][t.index] == kinds[t.index];
        }
      }
    }
  }

  /** A trial is among button j's tagged trials exactly when it names j and
      one of them. */
  lemma TaggedMember(t: Trial, j: nat, ps: seq<Param>)
    ensures t in Tagged(j, ps) <==> t.index == j && t.param in ps
  {
    if t in Tagged(j, ps) {
      var k :| 0 <= k < |ps| && Tagged(j, ps)[k] == t;
    }
    if t.index == j && t.param in ps {
      var k :| 0 <= k < |ps| && ps[k] == t.param;
      assert Tagged(j, ps)[k] == t;
    }
  }

  /** The trials come button by button, in list order. */
  lemma {:induction false} IterButtonsOrdered(total: int, kinds: seq<Kind>, groups: int -> seq<string>)
    ensures forall a, b :: 0 <= a < b < |IterButtons(total, kinds, groups)| ==>
      IterButtons(total, kinds, groups)[a].index <= IterButtons(total, kinds, groups)[b].index
    decreases |kinds|
  {
    if kinds != [] {
      IterButtonsOrdered(total, kinds[..|kinds| - 1], groups);
      IterButtonsMembers(total, kinds[..|kinds| - 1], groups);
      OrderedSnoc(IterButtons(total, kinds[..|kinds| - 1], groups),
        Tagged(|kinds| - 1, TrialsOf(kinds[|kinds| - 1], total, groups)), |kinds| - 1);
    }
  }

  /** Appending the trials of a later button keeps the order. */
  lemma OrderedSnoc(front: seq<Trial>, last: seq<Trial>, j: nat)
    requires forall a, b :: 0 <= a < b < |front| ==> front[a].index <= front[b].index
    requires forall t :: t in front ==> t.index < j
    requires forall k :: 0 <= k < |last| ==> last[k].index == j
    ensures forall a, b :: 0 <= a < b < |front + last| ==> (front + last)[a].index <= (front + last)[b].index
  {
    forall a, b | 0 <= a < b < |front + last| ensures (front + last)[a].index <= (front + last)[b].index {
      if b >= |front| {
        assert (front + last)[b] == last[b - |front|];
        if a < |front| {
          assert front[a] in front;
        }
      }
    }
  }

  /** Every trial of `iter_buttons` passes what its button's `press`
      expects. */
  lemma IterButtonsFit(total: int, kinds: seq<Kind>, groups: int -> seq<string>, t: Trial)
    requires t in IterButtons(total, kinds, groups)
    ensures t.index < |kinds| && Fits(kinds[t.index], t.param, total)
  {
    IterButtonsMembers(total, kinds, groups);
    TrialsFit(kinds[t.index], total, groups, t.param);
  }

  // ---------------------------------------------------------------------------
  // itertools.product((False, True), repeat=n)

  function Pow2(n: nat): nat {
    if n == 0 then 1 else 2 * Pow2(n - 1)
  }

  /** b in front of every choice. */
  function Prefixed(b: bool, cs: seq<seq<bool>>): (r: seq<seq<bool>>)
    ensures |r| == |cs| && forall k :: 0 <= k < |cs| ==> r[k] == [b] + cs[k]
  {
    seq(|cs|, k requires 0 <= k < |cs| => [b] + cs[k])
  }

  /** The choices in the order `itertools.product` yields them: the first
      switch varies slowest, False before True. */
  function Combos(n: nat): seq<seq<bool>> {
    if n == 0 then [[]] else Prefixed(false, Combos(n - 1)) + Prefixed(true, Combos(n - 1))
  }

  /** There are 2^n choices. */
  lemma {:induction false} CombosCount(n: nat)
    ensures |Combos(n)| == Pow2(n)
  {
    if n > 0 {
      CombosCount(n - 1);
    }
  }

  /** Every choice sets each of the n switches. */
  lemma {:induction false} CombosLength(n: nat)
    ensures forall c :: c in Combos(n) ==> |c| == n
  {
    if n > 0 {
      CombosLength(n - 1);
      forall c | c in Combos(n) ensures |c| == n {
        PrefixedMember(c, Combos(n - 1));
      }
    }
  }

  /** A member of the prefixed choices is one of the choices with its
      prefix. */
  lemma PrefixedMember(c: seq<bool>, cs: seq<seq<bool>>)
    requires c in Prefixed(false, cs) + Prefixed(true, cs)
    ensures |c| >= 1 && c[1..] in cs
  {
    if c in Prefixed(false, cs) {
      var k :| 0 <= k < |cs| && Prefixed(false, cs)[k] == c;
      assert c[1..] == cs[k];
    } else {
      var k :| 0 <= k < |cs| && Prefixed(true, cs)[k] == c;
      assert c[1..] == cs[k];
    }
  }

  /** Every on/off assignment to the switches is among the choices. */
  lemma {:induction false} CombosCover(c: seq<bool>)
    ensures c in Combos(|c|)
  {
    if c != [] {
      CombosCover(c[1..]);
      PrefixedCover(c, Combos(|c| - 1));
    }
  }

  lemma PrefixedCover(c: seq<bool>, cs: seq<seq<bool>>)
    requires |c| >= 1 && c[1..] in cs
    ensures c in Prefixed(false, cs) + Prefixed(true, cs)
  {
    var k :| 0 <= k < |cs| && cs[k] == c[1..];
    assert c == [c[0]] + c[1..];
    if c[0] {
      assert Prefixed(true, cs)[k] == c;
    } else {
      assert Prefixed(false, cs)[k] == c;
    }
  }
}

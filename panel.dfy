/** The buttons of the calculator as mutable objects: what `press` returns,
    how `inc` (sent by a Change button) and `revert` change their state, and
    the StoreV2 history stack. */
module Panel {
  import opened Outcomes
  import opened Decimal
  import opened Keys

  /** The kinds of button.  An argument of a kind is fixed when the button is
      made (Convert's replacement text, Sort's order); everything `inc` or a
      press can change lives in `ButtonState`. */
  datatype Kind =
    | Add | Sub | Mul | Div | Pow | Num | Backspace | Negate
    | Convert(to: string) | Cut
    | Reverse | Sum | ShiftLeft | ShiftRight | Mirror | Inv10 | Sort(desc: bool)
    | Delete | Insert | Round | DigitAdd | DigitSub | Replace | Shift
    | Change | Store | StoreV2 | Lock

  /** `_value` (a number, or None for an empty store), the pattern of Convert
      and Cut, and the history `_stack` of StoreV2. */
  datatype ButtonState = ButtonState(value: Option<int>, pattern: string, stack: seq<Option<int>>)

  /** The keyword arguments a trial passes to `press` and `revert`. */
  datatype Param = Plain | At(pos: nat) | Actions(text: string) | LongPress

  /** Kinds whose constructor takes a number that `press` uses. */
  predicate NeedsNumber(kind: Kind) {
    kind.Add? || kind.Sub? || kind.Mul? || kind.Div? || kind.Pow? || kind.Num? || kind.Insert?
    || kind.DigitAdd? || kind.DigitSub? || kind.Replace? || kind.Change?
  }

  /** A Cut pattern that is the numeral of its own value, as `inc` leaves it. */
  predicate NumeralPattern(p: string) {
    ParseInt(p).Some? && Str(ParseInt(p).value) == p
  }

  /** How `inc` moves a button's `_value`. */
  datatype IncRule = Up | Down | Renumber | Keep

  /** Sub keeps its number negated, so inc moves it down; Cut renumbers its
      pattern; Pow, Replace, Change and the kinds without a number have no inc. */
  function IncRuleOf(kind: Kind): IncRule {
    match kind
    case Add | Mul | Div | Num | Insert | DigitAdd | DigitSub | Store => Up
    case Sub => Down
    case Cut => Renumber
    case _ => Keep
  }

  /** What every button of a kind satisfies once made. */
  predicate Holds(kind: Kind, s: ButtonState) {
    (NeedsNumber(kind) ==> s.value.Some?) && (IncRuleOf(kind) == Renumber ==> NumeralPattern(s.pattern))
  }

  /** What every button of a panel satisfies. */
  predicate AllHold(kinds: seq<Kind>, states: seq<ButtonState>)
    requires |kinds| == |states|
  {
    forall i :: 0 <= i < |states| ==> Holds(kinds[i], states[i])
  }

  // ---------------------------------------------------------------------------
  // inc

  /** `inc(delta)`: Sub's `_value` (the negated number) goes down, Cut's
      pattern becomes `str(int(pattern) + delta)`, the other numbered kinds go
      up; kinds without `inc` are unchanged.  `None + delta` raises TypeError
      and `int` of a pattern that is no numeral raises ValueError. */
  function Incremented(kind: Kind, s: ButtonState, delta: int): (r: Outcome<ButtonState>)
    ensures !r.Fail?
    ensures r.Ok? ==> r.value.stack == s.stack
  {
    match IncRuleOf(kind)
    case Up => if s.value.None? then Crash(TypeError) else Ok(s.(value := Some(s.value.value + delta)))
    case Down => if s.value.None? then Crash(TypeError) else Ok(s.(value := Some(s.value.value - delta)))
    case Renumber =>
      var p := IntOf(s.pattern);
      if p.Ok? then Ok(s.(pattern := Str(p.value + delta))) else Crash(p.exc)
    case Keep => Ok(s)
  }

  /** inc(delta) raises exactly on a Store without a value, a numbered kind
      without a number, or a Cut pattern that is no numeral. */
  lemma IncrementedCrashes(kind: Kind, s: ButtonState, delta: int)
    ensures Incremented(kind, s, delta).Crash? <==>
      || (kind == Store && s.value.None?)
      || (kind != Cut && kind != Change && kind != Replace && kind != Pow && NeedsNumber(kind) && s.value.None?)
      || (kind == Cut && ParseInt(s.pattern).None?)
  {
  }

  /** inc(delta) followed by inc(-delta) gives the button its state back, and
      keeps what every button of the kind satisfies. */
  lemma IncInverse(kind: Kind, s: ButtonState, delta: int, t: ButtonState)
    requires Holds(kind, s) && Incremented(kind, s, delta) == Ok(t)
    ensures Holds(kind, t)
    ensures Incremented(kind, t, -delta) == Ok(s)
  {
    match IncRuleOf(kind)
    case Up =>
    case Down =>
    case Renumber => RenumberInverse(s, delta, t);
    case Keep =>
  }

  /** Cut's pattern renumbered by delta and then by -delta is the pattern it was. */
  lemma RenumberInverse(s: ButtonState, delta: int, t: ButtonState)
    requires NumeralPattern(s.pattern) && t == s.(pattern := Str(ParseInt(s.pattern).value + delta))
    ensures NumeralPattern(t.pattern) && IntOf(t.pattern) == Ok(ParseInt(s.pattern).value + delta)
    ensures t.(pattern := Str(ParseInt(t.pattern).value - delta)) == s
  {
    ParseIntStr(ParseInt(s.pattern).value + delta);
  }

  /** `inc` on every button in list order, stopping at the first exception. */
  function IncAll(kinds: seq<Kind>, states: seq<ButtonState>, delta: int): (r: Outcome<seq<ButtonState>>)
    requires |kinds| == |states|
    ensures !r.Fail?
    ensures r.Ok? ==> |r.value| == |states|
  {
    if states == [] then Ok([])
    else
      var n := |states| - 1;
      var front := IncAll(kinds[..n], states[..n], delta);
      if front.Crash? then front
      else
        var last := Incremented(kinds[n], states[n], delta);
        if last.Crash? then Crash(last.exc) else Ok(front.value + [last.value])
  }

  /** inc over all buttons succeeds exactly when it succeeds on each button,
      and then gives each button what inc gives it alone. */
  lemma {:induction false} IncAllPointwise(kinds: seq<Kind>, states: seq<ButtonState>, delta: int)
    requires |kinds| == |states|
    ensures IncAll(kinds, states, delta).Ok? <==>
      forall i :: 0 <= i < |states| ==> Incremented(kinds[i], states[i], delta).Ok?
    ensures IncAll(kinds, states, delta).Ok? ==>
      forall i :: 0 <= i < |states| ==> Incremented(kinds[i], states[i], delta) == Ok(IncAll(kinds, states, delta).value[i])
    decreases |states|
  {
    if states != [] {
      var n := |states| - 1;
      IncAllPointwise(kinds[..n], states[..n], delta);
      if !Incremented(kinds[n], states[n], delta).Ok? {
        assert !IncAll(kinds, states, delta).Ok?;
      } else if IncAll(kinds[..n], states[..n], delta).Ok? {
        var r := IncAll(kinds, states, delta).value;
        assert r == IncAll(kinds[..n], states[..n], delta).value + [Incremented(kinds[n], states[n], delta).value];
        forall i | 0 <= i < |states| ensures Incremented(kinds[i], states[i], delta) == Ok(r[i]) {
          if i < n {
            assert kinds[..n][i] == kinds[i] && states[..n][i] == states[i];
          }
        }
      } else {
        var j :| 0 <= j < n && !Incremented(kinds[..n][j], states[..n][j], delta).Ok?;
        assert !Incremented(kinds[j], states[j], delta).Ok?;
      }
    }
  }

  /** Change's revert undoes its press: inc(-delta) over all buttons gives
      back the states before inc(delta). */
  lemma IncAllInverse(kinds: seq<Kind>, states: seq<ButtonState>, delta: int, after: seq<ButtonState>)
    requires |kinds| == |states| && IncAll(kinds, states, delta) == Ok(after)
    requires AllHold(kinds, states)
    ensures AllHold(kinds, after)
    ensures IncAll(kinds, after, -delta) == Ok(states)
  {
    IncAllEach(kinds, states, delta, after);
    forall j | 0 <= j < |states|
      ensures Holds(kinds[j], after[j]) && Incremented(kinds[j], after[j], -delta) == Ok(states[j])
    {
      IncInverse(kinds[j], states[j], delta, after[j]);
    }
    IncAllFrom(kinds, after, -delta, states);
  }

  /** inc over all buttons gives ys exactly when inc gives each button its
      entry of ys. */
  lemma IncAllIff(kinds: seq<Kind>, xs: seq<ButtonState>, delta: int, ys: seq<ButtonState>)
    requires |kinds| == |xs|
    ensures IncAll(kinds, xs, delta) == Ok(ys) <==>
      |ys| == |xs| && forall j :: 0 <= j < |xs| ==> Incremented(kinds[j], xs[j], delta) == Ok(ys[j])
  {
    if IncAll(kinds, xs, delta) == Ok(ys) {
      IncAllEach(kinds, xs, delta, ys);
    }
    if |ys| == |xs| && forall j :: 0 <= j < |xs| ==> Incremented(kinds[j], xs[j], delta) == Ok(ys[j]) {
      IncAllFrom(kinds, xs, delta, ys);
    }
  }

  lemma IncAllEach(kinds: seq<Kind>, xs: seq<ButtonState>, delta: int, ys: seq<ButtonState>)
    requires |kinds| == |xs| && IncAll(kinds, xs, delta) == Ok(ys)
    ensures forall j :: 0 <= j < |xs| ==> Incremented(kinds[j], xs[j], delta) == Ok(ys[j])
  {
    IncAllPointwise(kinds, xs, delta);
  }

  lemma IncAllFrom(kinds: seq<Kind>, xs: seq<ButtonState>, delta: int, ys: seq<ButtonState>)
    requires |kinds| == |xs| == |ys|
    requires forall j :: 0 <= j < |xs| ==> Incremented(kinds[j], xs[j], delta) == Ok(ys[j])
    ensures IncAll(kinds, xs, delta) == Ok(ys)
  {
    IncAllPointwise(kinds, xs, delta);
    assert IncAll(kinds, xs, delta).value == ys;
  }

  // ---------------------------------------------------------------------------
  // press

  /** The keyword arguments `iter_buttons` gives a kind. */
  predicate Fits(kind: Kind, param: Param, total: int) {
    match kind
    case Delete | Insert | Round => param.At?
    case DigitAdd | DigitSub | Replace | Lock => param.At? && param.pos < NumDigits(Abs(total))
    case Shift => param.Actions?
    case StoreV2 => param.Plain? || param.LongPress?
    case _ => param.Plain?
  }

  /** Store (and a plain StoreV2 press): append the stored number, unless the
      store is empty or negative. */
  function StorePress(total: int, stored: Option<int>): (r: Outcome<int>)
    ensures r.Fail? <==> stored.None? || stored.value < 0
    ensures stored.Some? && stored.value >= 0 ==> r == NumPress(total, stored.value)
  {
    if stored.None? then Fail(StoreEmpty)
    else if stored.value < 0 then Fail(StoreNegative)
    else NumPress(total, stored.value)
  }

  /** Pow: a negative exponent would give a float. */
  function PowPress(total: int, exp: int): (r: Outcome<int>)
    ensures exp < 0 <==> r.Crash?
    ensures !r.Fail?
  {
    if exp < 0 then Crash(NonInteger) else Ok(Power(total, exp))
  }

  /** What `press` returns for a button of a kind in state s. */
  function PressValue(kind: Kind, s: ButtonState, param: Param, total: int): Outcome<int>
    requires Fits(kind, param, total) && Holds(kind, s)
  {
    match kind
    case Add => Ok(total + s.value.value)
    case Sub => Ok(total + s.value.value)
    case Mul => Ok(total * s.value.value)
    case Div => DivPress(total, s.value.value)
    case Pow => PowPress(total, s.value.value)
    case Num => NumPress(total, s.value.value)
    case Backspace => Ok(BackspacePress(total))
    case Negate => Ok(-total)
    case Convert(to) => ConvertPress(total, s.pattern, to)
    case Cut => ConvertPress(total, s.pattern, "")
    case Reverse => Ok(ReversePress(total))
    case Sum => Ok(SumPress(total))
    case ShiftLeft => Ok(ShiftLeftPress(total))
    case ShiftRight => Ok(ShiftRightPress(total))
    case Mirror => Ok(MirrorPress(total))
    case Inv10 => Inv10Press(total)
    case Sort(desc) => Ok(SortPress(total, desc))
    case Delete => Ok(DeletePress(total, param.pos))
    case Insert => Ok(InsertPress(total, param.pos, s.value.value))
    case Round => Ok(RoundPress(total, param.pos))
    case DigitAdd => DigitAddPress(total, param.pos, s.value.value)
    case DigitSub => DigitAddPress(total, param.pos, s.value.value)
    case Replace => ReplacePress(total, param.pos, s.value.value)
    case Shift => RunActions(total, param.text)
    case Change => Ok(total)
    case Store => StorePress(total, s.value)
    case StoreV2 =>
      if param == LongPress then
        if s.value == Some(total) then Fail(TotalAlreadyStored) else Ok(total)
      else StorePress(total, s.value)
    case Lock => Ok(total)
  }

  /** A StoreV2 long press: the old value goes on the history, the total
      becomes the value. */
  function Pushed(s: ButtonState, total: int): (r: ButtonState)
    ensures r.value == Some(total) && r.stack == s.stack + [s.value] && r.pattern == s.pattern
  {
    s.(value := Some(total), stack := s.stack + [s.value])
  }

  /** A StoreV2 long-press revert: the value becomes the last one saved, which
      leaves the history. */
  function Popped(s: ButtonState): (r: Outcome<ButtonState>)
    ensures r.Crash? <==> s.stack == []
    ensures !r.Fail?
  {
    if s.stack == [] then Crash(IndexError)
    else Ok(s.(value := s.stack[|s.stack| - 1], stack := s.stack[..|s.stack| - 1]))
  }

  /** The total a press returns and the button states after it. */
  datatype Pressed = Pressed(total: int, states: seq<ButtonState>)

  /** The state changes of a press that succeeds: Change sends inc to every
      button, a StoreV2 long press pushes its value; other presses change
      nothing. */
  function PressEffect(kinds: seq<Kind>, states: seq<ButtonState>, i: nat, param: Param, total: int)
    : (r: Outcome<seq<ButtonState>>)
    requires |kinds| == |states| && i < |kinds| && Holds(kinds[i], states[i])
    ensures r.Ok? ==> |r.value| == |states|
  {
    if kinds[i] == Change then IncAll(kinds, states, states[i].value.value)
    else if kinds[i] == StoreV2 && param == LongPress then Ok(states[i := Pushed(states[i], total)])
    else Ok(states)
  }

  /** Pressing button i of a panel: the value `press` returns, then the state
      changes (Change's inc raises before `press` returns). */
  function PressPanel(kinds: seq<Kind>, states: seq<ButtonState>, i: nat, param: Param, total: int): (r: Outcome<Pressed>)
    requires |kinds| == |states| && i < |kinds|
    requires Fits(kinds[i], param, total) && Holds(kinds[i], states[i])
    ensures r.Ok? ==> |r.value.states| == |states|
  {
    var v := PressValue(kinds[i], states[i], param, total);
    if v.Fail? then Fail(v.error)
    else if v.Crash? then Crash(v.exc)
    else
      var e := PressEffect(kinds, states, i, param, total);
      if e.Crash? then Crash(e.exc) else Ok(Pressed(v.value, e.value))
  }

  /** `revert` of button i after a press with the same parameters. */
  function RevertPanel(kinds: seq<Kind>, states: seq<ButtonState>, i: nat, param: Param): (r: Outcome<seq<ButtonState>>)
    requires |kinds| == |states| && i < |kinds|
    ensures r.Ok? ==> |r.value| == |states|
    ensures !r.Fail?
  {
    if kinds[i] == Change then
      if states[i].value.None? then Crash(TypeError) else IncAll(kinds, states, -states[i].value.value)
    else if kinds[i] == StoreV2 && param == LongPress then
      var p := Popped(states[i]);
      if p.Crash? then Crash(p.exc) else Ok(states[i := p.value])
    else Ok(states)
  }

  /** A press keeps what every button satisfies, and revert with the same
      parameters gives the states before the press back. */
  lemma RevertUndoesPress(kinds: seq<Kind>, states: seq<ButtonState>, i: nat, param: Param, total: int)
    requires |kinds| == |states| && i < |kinds| && AllHold(kinds, states)
    requires PressEffect(kinds, states, i, param, total).Ok?
    ensures AllHold(kinds, PressEffect(kinds, states, i, param, total).value)
    ensures RevertPanel(kinds, PressEffect(kinds, states, i, param, total).value, i, param) == Ok(states)
  {
    if kinds[i] == Change {
      ChangeReverted(kinds, states, i, PressEffect(kinds, states, i, param, total).value);
    } else if kinds[i] == StoreV2 && param == LongPress {
      LongPressReverted(kinds, states, i, total);
    }
  }

  /** A revert keeps what every button satisfies, whatever happened since the
      press. */
  lemma RevertKeepsHolds(kinds: seq<Kind>, states: seq<ButtonState>, i: nat, param: Param, after: seq<ButtonState>)
    requires |kinds| == |states| && i < |kinds| && AllHold(kinds, states)
    requires RevertPanel(kinds, states, i, param) == Ok(after)
    ensures AllHold(kinds, after)
  {
    if kinds[i] == Change {
      IncAllInverse(kinds, states, -states[i].value.value, after);
    }
  }

  lemma ChangeReverted(kinds: seq<Kind>, states: seq<ButtonState>, i: nat, after: seq<ButtonState>)
    requires |kinds| == |states| && i < |kinds| && AllHold(kinds, states) && kinds[i] == Change
    requires IncAll(kinds, states, states[i].value.value) == Ok(after)
    ensures AllHold(kinds, after)
    ensures RevertPanel(kinds, after, i, Plain) == Ok(states)
  {
    assert after[i] == states[i] by {
      IncAllAt(kinds, states, states[i].value.value, i);
    }
    IncAllInverse(kinds, states, states[i].value.value, after);
  }

  /** What inc over all buttons gives button j. */
  lemma IncAllAt(kinds: seq<Kind>, states: seq<ButtonState>, delta: int, j: nat)
    requires |kinds| == |states| && j < |states| && IncAll(kinds, states, delta).Ok?
    ensures Incremented(kinds[j], states[j], delta) == Ok(IncAll(kinds, states, delta).value[j])
  {
    IncAllPointwise(kinds, states, delta);
  }

  lemma LongPressReverted(kinds: seq<Kind>, states: seq<ButtonState>, i: nat, total: int)
    requires |kinds| == |states| && i < |kinds| && AllHold(kinds, states) && kinds[i] == StoreV2
    ensures AllHold(kinds, states[i := Pushed(states[i], total)])
    ensures RevertPanel(kinds, states[i := Pushed(states[i], total)], i, LongPress) == Ok(states)
  {
    var after := states[i := Pushed(states[i], total)];
    assert Popped(after[i]) == Ok(states[i]);
    assert after[i := states[i]] == states;
  }

  /** Change returns the total unchanged after sending its number to every
      button's `inc`; it raises exactly when one of those raises. */
  lemma ChangePress(kinds: seq<Kind>, states: seq<ButtonState>, i: nat, total: int)
    requires |kinds| == |states| && i < |kinds| && AllHold(kinds, states) && kinds[i] == Change
    ensures PressPanel(kinds, states, i, Plain, total).Ok? <==> IncAll(kinds, states, states[i].value.value).Ok?
    ensures !PressPanel(kinds, states, i, Plain, total).Fail?
    ensures PressPanel(kinds, states, i, Plain, total).Ok? ==>
      PressPanel(kinds, states, i, Plain, total)
        == Ok(Pressed(total, IncAll(kinds, states, states[i].value.value).value))
  {
    assert Holds(kinds[i], states[i]);
  }

  /** A StoreV2 long press fails when the total is already the stored value,
      and otherwise returns the total and pushes the old value; a plain press
      appends the stored value as Store does and changes no state. */
  lemma StoreV2Press(kinds: seq<Kind>, states: seq<ButtonState>, i: nat, total: int)
    requires |kinds| == |states| && i < |kinds| && AllHold(kinds, states) && kinds[i] == StoreV2
    ensures PressPanel(kinds, states, i, LongPress, total).Fail? <==> states[i].value == Some(total)
    ensures states[i].value != Some(total) ==>
      PressPanel(kinds, states, i, LongPress, total) == Ok(Pressed(total, states[i := Pushed(states[i], total)]))
    ensures PressPanel(kinds, states, i, Plain, total).Fail? <==>
      states[i].value.None? || states[i].value.value < 0
    ensures PressPanel(kinds, states, i, Plain, total).Ok? ==>
      PressPanel(kinds, states, i, Plain, total).value.states == states
      && NumPress(total, states[i].value.value) == Ok(PressPanel(kinds, states, i, Plain, total).value.total)
  {
    assert Holds(kinds[i], states[i]);
  }

  /** StoreV2's history is a stack: n long presses followed by n reverts
      give back the state before them. */
  function PushAll(s: ButtonState, totals: seq<int>): ButtonState
    decreases |totals|
  {
    if totals == [] then s else PushAll(Pushed(s, totals[0]), totals[1..])
  }

  function PopTimes(s: ButtonState, n: nat): Outcome<ButtonState>
    decreases n
  {
    if n == 0 then Ok(s)
    else
      var p := Popped(s);
      if p.Crash? then p else PopTimes(p.value, n - 1)
  }

  lemma {:induction false} PushAllStack(s: ButtonState, totals: seq<int>)
    ensures |PushAll(s, totals).stack| == |s.stack| + |totals|
    ensures PushAll(s, totals).stack[..|s.stack|] == s.stack
    ensures totals != [] ==> PushAll(s, totals).value == Some(totals[|totals| - 1])
    decreases |totals|
  {
    if totals != [] {
      PushAllStack(Pushed(s, totals[0]), totals[1..]);
      var p := Pushed(s, totals[0]);
      assert p.stack[..|s.stack|] == s.stack;
      if |totals| > 1 {
        assert totals[1..][|totals[1..]| - 1] == totals[|totals| - 1];
      }
    }
  }

  lemma {:induction false} StoreV2Lifo(s: ButtonState, totals: seq<int>)
    ensures PopTimes(PushAll(s, totals), |totals|) == Ok(s)
    decreases |totals|
  {
    if totals != [] {
      var n := |totals| - 1;
      var front := totals[..n];
      assert totals == front + [totals[n]];
      PushAllSnoc(s, front, totals[n]);
      StoreV2Lifo(s, front);
      assert Popped(Pushed(PushAll(s, front), totals[n])) == Ok(PushAll(s, front));
    }
  }

  lemma {:induction false} PushAllSnoc(s: ButtonState, totals: seq<int>, t: int)
    ensures PushAll(s, totals + [t]) == Pushed(PushAll(s, totals), t)
    decreases |totals|
  {
    if totals == [] {
      assert [t][1..] == [];
    } else {
      assert (totals + [t])[1..] == totals[1..] + [t];
      PushAllSnoc(Pushed(s, totals[0]), totals[1..], t);
    }
  }

  // ---------------------------------------------------------------------------
  // Buttons as objects

  /** The state a constructor gives a button: Sub and DigitSub keep their
      number negated, StoreV2 starts empty with the empty value as its
      history. */
  function Initial(kind: Kind, number: Option<int>, pattern: string): (s: ButtonState)
    requires kind == Sub || kind == DigitSub ==> number.Some?
    ensures kind == StoreV2 ==> s.value.None? && s.stack == [None]
    ensures kind != StoreV2 ==> s.stack == []
    ensures kind == Sub || kind == DigitSub ==> s.value == Some(-number.value)
    ensures kind != Sub && kind != DigitSub && kind != StoreV2 ==> s.value == number
    ensures s.pattern == pattern
  {
    if kind == Sub || kind == DigitSub then ButtonState(Some(-number.value), pattern, [])
    else if kind == StoreV2 then ButtonState(None, pattern, [None])
    else ButtonState(number, pattern, [])
  }

  /** A fresh button satisfies what every button of its kind satisfies. */
  lemma InitialHolds(kind: Kind, number: Option<int>, n: int)
    requires NeedsNumber(kind) ==> number.Some?
    ensures Holds(kind, Initial(kind, number, Str(n)))
  {
    if IncRuleOf(kind) == Renumber {
      assert NumeralPattern(Str(n)) by {
        ParseIntStr(n);
      }
    }
  }

  /** A button: its kind is fixed, `_value`, the pattern and StoreV2's
      `_stack` change. */
  class Button {
    const kind: Kind
    var value: Option<int>
    var pattern: string
    var stack: seq<Option<int>>

    function State(): ButtonState
      reads this
    {
      ButtonState(value, pattern, stack)
    }

    constructor (kind: Kind, number: Option<int>, pattern: string)
      requires kind == Sub || kind == DigitSub ==> number.Some?
      ensures this.kind == kind && State() == Initial(kind, number, pattern)
    {
      this.kind := kind;
      if kind == Sub || kind == DigitSub {
        value := Some(-number.value);
      } else if kind == StoreV2 {
        value := None;
      } else {
        value := number;
      }
      this.pattern := pattern;
      stack := if kind == StoreV2 then [None] else [];
    }

    /** `inc(delta)`; on an exception the button is left as it was. */
    method Inc(delta: int) returns (exc: Option<Uncaught>)
      modifies this
      ensures Incremented(kind, old(State()), delta) == (if exc.None? then Ok(State()) else Crash(exc.value))
      ensures exc.Some? ==> State() == old(State())
    {
      match IncRuleOf(kind)
      case Up =>
        if value.None? {
          exc := Some(TypeError);
        } else {
          value := Some(value.value + delta);
          exc := None;
        }
      case Down =>
        if value.None? {
          exc := Some(TypeError);
        } else {
          value := Some(value.value - delta);
          exc := None;
        }
      case Renumber =>
        var p := IntOf(pattern);
        if p.Ok? {
          pattern := Str(p.value + delta);
          exc := None;
        } else {
          exc := Some(p.exc);
        }
      case Keep =>
        exc := None;
    }

    /** `Store.store(v)`. */
    method SetValue(v: Option<int>)
      requires kind == Store
      modifies this
      ensures State() == old(State()).(value := v)
    {
      value := v;
    }

    /** The state change of a StoreV2 long press. */
    method Push(total: int)
      requires kind == StoreV2
      modifies this
      ensures State() == Pushed(old(State()), total)
    {
      stack := stack + [value];
      value := Some(total);
    }

    /** StoreV2's long-press revert: take the last saved value back; an empty
        history raises IndexError. */
    method Pop() returns (exc: Option<Uncaught>)
      requires kind == StoreV2
      modifies this
      ensures Popped(old(State())) == (if exc.None? then Ok(State()) else Crash(exc.value))
      ensures exc.Some? ==> State() == old(State())
    {
      if stack == [] {
        exc := Some(IndexError);
      } else {
        value := stack[|stack| - 1];
        stack := stack[..|stack| - 1];
        exc := None;
      }
    }
  }

  /** The kinds of a list of buttons. */
  function Kinds(bs: seq<Button>): (ks: seq<Kind>)
    ensures |ks| == |bs| && forall j :: 0 <= j < |bs| ==> ks[j] == bs[j].kind
  {
    seq(|bs|, j requires 0 <= j < |bs| => bs[j].kind)
  }

  /** The states of a list of buttons. */
  function Snapshot(bs: seq<Button>): (ss: seq<ButtonState>)
    reads set b | b in bs
    ensures |ss| == |bs| && forall j :: 0 <= j < |bs| ==> ss[j] == bs[j].State()
  {
    seq(|bs|, j requires 0 <= j < |bs| reads set b | b in bs => bs[j].State())
  }

  /** No button appears twice in the list. */
  predicate Distinct(bs: seq<Button>) {
    forall j, k :: 0 <= j < |bs| && 0 <= k < |bs| && j != k ==> bs[j] != bs[k]
  }

  /** Once inc raises on a prefix of the buttons, it raises the same way on
      all of them. */
  lemma {:induction false} IncAllCrashExtends(kinds: seq<Kind>, states: seq<ButtonState>, delta: int, n: nat)
    requires |kinds| == |states| && n <= |states| && IncAll(kinds[..n], states[..n], delta).Crash?
    ensures IncAll(kinds, states, delta) == IncAll(kinds[..n], states[..n], delta)
    decreases |states|
  {
    if n < |states| {
      var m := |states| - 1;
      assert kinds[..m][..n] == kinds[..n] && states[..m][..n] == states[..n];
      IncAllCrashExtends(kinds[..m], states[..m], delta, n);
    } else {
      assert kinds[..n] == kinds && states[..n] == states;
    }
  }

  /** One more button done: inc over the first i + 1 buttons, from inc over
      the first i and inc of button i. */
  lemma IncAllStep(kinds: seq<Kind>, states: seq<ButtonState>, delta: int, i: nat, cur: seq<ButtonState>, t: ButtonState)
    requires |kinds| == |states| == |cur| && i < |states|
    requires IncAll(kinds[..i], states[..i], delta) == Ok(cur[..i])
    requires Incremented(kinds[i], states[i], delta) == Ok(t)
    ensures IncAll(kinds[..i + 1], states[..i + 1], delta) == Ok(cur[i := t][..i + 1])
  {
    assert kinds[..i + 1][..i] == kinds[..i] && states[..i + 1][..i] == states[..i];
    assert cur[i := t][..i + 1] == cur[..i] + [t];
  }

  /** inc raising on button i, after the buttons before it. */
  lemma IncAllCrashAt(kinds: seq<Kind>, states: seq<ButtonState>, delta: int, i: nat, e: Uncaught)
    requires |kinds| == |states| && i < |states|
    requires IncAll(kinds[..i], states[..i], delta).Ok?
    requires Incremented(kinds[i], states[i], delta) == Crash(e)
    ensures IncAll(kinds, states, delta) == Crash(e)
  {
    assert kinds[..i + 1][..i] == kinds[..i] && states[..i + 1][..i] == states[..i];
    IncAllCrashExtends(kinds, states, delta, i + 1);
  }

  /** `inc` on button i of the list. */
  method IncAt(bs: seq<Button>, i: nat, delta: int) returns (exc: Option<Uncaught>)
    requires Distinct(bs) && i < |bs|
    modifies bs[i]
    ensures Incremented(bs[i].kind, old(bs[i].State()), delta) == (if exc.None? then Ok(bs[i].State()) else Crash(exc.value))
    ensures Snapshot(bs) == old(Snapshot(bs))[i := bs[i].State()]
  {
    ghost var before := Snapshot(bs);
    exc := bs[i].Inc(delta);
    forall j | 0 <= j < |bs| && j != i ensures Snapshot(bs)[j] == before[j] {
      assert bs[j] != bs[i];
    }
  }

  /** `inc` on every button in list order, as Change's press and revert run it. */
  method IncEach(bs: seq<Button>, delta: int) returns (exc: Option<Uncaught>)
    requires Distinct(bs)
    modifies set b | b in bs
    ensures exc.None? ==> IncAll(Kinds(bs), old(Snapshot(bs)), delta) == Ok(Snapshot(bs))
    ensures exc.Some? ==> IncAll(Kinds(bs), old(Snapshot(bs)), delta) == Crash(exc.value)
  {
    ghost var olds := Snapshot(bs);
    ghost var ks := Kinds(bs);
    var i := 0;
    while i < |bs|
      invariant 0 <= i <= |bs| && |Snapshot(bs)| == |bs|
      invariant IncAll(ks[..i], olds[..i], delta) == Ok(Snapshot(bs)[..i])
      invariant Snapshot(bs)[i..] == olds[i..]
    {
      ghost var before := Snapshot(bs);
      assert olds[i] == before[i..][0];
      var e := IncAt(bs, i, delta);
      if e.Some? {
        IncAllCrashAt(ks, olds, delta, i, e.value);
        return e;
      }
      IncAllStep(ks, olds, delta, i, before, bs[i].State());
      assert Snapshot(bs)[i + 1..] == before[i + 1..];
      i := i + 1;
    }
    assert ks[..i] == ks && olds[..i] == olds && Snapshot(bs)[..i] == Snapshot(bs);
    return None;
  }

  /** A long press on StoreV2 button i of the list. */
  method PushAt(bs: seq<Button>, i: nat, total: int)
    requires Distinct(bs) && i < |bs| && bs[i].kind == StoreV2
    modifies bs[i]
    ensures Snapshot(bs) == old(Snapshot(bs))[i := Pushed(old(bs[i].State()), total)]
  {
    ghost var before := Snapshot(bs);
    bs[i].Push(total);
    forall j | 0 <= j < |bs| && j != i ensures Snapshot(bs)[j] == before[j] {
      assert bs[j] != bs[i];
    }
  }

  /** `store.store(v)` for Store button i of the list. */
  method SetAt(bs: seq<Button>, i: nat, v: Option<int>)
    requires Distinct(bs) && i < |bs| && bs[i].kind == Store
    modifies bs[i]
    ensures Snapshot(bs) == old(Snapshot(bs))[i := old(bs[i].State()).(value := v)]
  {
    ghost var before := Snapshot(bs);
    bs[i].SetValue(v);
    forall j | 0 <= j < |bs| && j != i ensures Snapshot(bs)[j] == before[j] {
      assert bs[j] != bs[i];
    }
  }

  /** A long-press revert on StoreV2 button i of the list. */
  method PopAt(bs: seq<Button>, i: nat) returns (exc: Option<Uncaught>)
    requires Distinct(bs) && i < |bs| && bs[i].kind == StoreV2
    modifies bs[i]
    ensures Popped(old(bs[i].State())).Ok? ==>
      exc.None? && Snapshot(bs) == old(Snapshot(bs))[i := Popped(old(bs[i].State())).value]
    ensures Popped(old(bs[i].State())).Crash? ==> exc == Some(Popped(old(bs[i].State())).exc)
  {
    ghost var before := Snapshot(bs);
    exc := bs[i].Pop();
    forall j | 0 <= j < |bs| && j != i ensures Snapshot(bs)[j] == before[j] {
      assert bs[j] != bs[i];
    }
  }

  /** `press` on button i with the trial's parameters:
      the total it returns, with the buttons changed as `PressPanel` says. */
  method PressButton(bs: seq<Button>, i: nat, param: Param, total: int) returns (r: Outcome<int>)
    requires Distinct(bs) && i < |bs|
    requires Fits(bs[i].kind, param, total) && Holds(bs[i].kind, bs[i].State())
    modifies set b | b in bs
    ensures PressPanel(Kinds(bs), old(Snapshot(bs)), i, param, total).Ok? ==>
      r == Ok(PressPanel(Kinds(bs), old(Snapshot(bs)), i, param, total).value.total)
      && Snapshot(bs) == PressPanel(Kinds(bs), old(Snapshot(bs)), i, param, total).value.states
    ensures PressPanel(Kinds(bs), old(Snapshot(bs)), i, param, total).Fail? ==>
      r == Fail(PressPanel(Kinds(bs), old(Snapshot(bs)), i, param, total).error) && Snapshot(bs) == old(Snapshot(bs))
    ensures PressPanel(Kinds(bs), old(Snapshot(bs)), i, param, total).Crash? ==>
      r == Crash(PressPanel(Kinds(bs), old(Snapshot(bs)), i, param, total).exc)
  {
    ghost var ks, olds := Kinds(bs), Snapshot(bs);
    if bs[i].kind == Change {
      assert PressPanel(ks, olds, i, param, total) ==
        if IncAll(ks, olds, bs[i].value.value).Crash? then Crash(IncAll(ks, olds, bs[i].value.value).exc)
        else Ok(Pressed(total, IncAll(ks, olds, bs[i].value.value).value));
      var exc := IncEach(bs, bs[i].value.value);
      r := if exc.Some? then Crash(exc.value) else Ok(total);
    } else if bs[i].kind == StoreV2 && param == LongPress {
      if bs[i].value == Some(total) {
        assert PressPanel(ks, olds, i, param, total) == Fail(TotalAlreadyStored);
        r := Fail(TotalAlreadyStored);
      } else {
        assert PressPanel(ks, olds, i, param, total) == Ok(Pressed(total, olds[i := Pushed(olds[i], total)]));
        PushAt(bs, i, total);
        r := Ok(total);
      }
    } else {
      r := PressValue(bs[i].kind, bs[i].State(), param, total);
      assert PressPanel(ks, olds, i, param, total) ==
        if r.Fail? then Fail(r.error) else if r.Crash? then Crash(r.exc) else Ok(Pressed(r.value, olds));
    }
  }

  /** `revert` on button i with the trial's parameters. */
  method RevertButton(bs: seq<Button>, i: nat, param: Param) returns (exc: Option<Uncaught>)
    requires Distinct(bs) && i < |bs|
    modifies set b | b in bs
    ensures RevertPanel(Kinds(bs), old(Snapshot(bs)), i, param).Ok? ==>
      exc.None? && Snapshot(bs) == RevertPanel(Kinds(bs), old(Snapshot(bs)), i, param).value
    ensures RevertPanel(Kinds(bs), old(Snapshot(bs)), i, param).Crash? ==>
      exc == Some(RevertPanel(Kinds(bs), old(Snapshot(bs)), i, param).exc)
  {
    ghost var ks, olds := Kinds(bs), Snapshot(bs);
    if bs[i].kind == Change {
      if bs[i].value.None? {
        assert RevertPanel(ks, olds, i, param) == Crash(TypeError);
        exc := Some(TypeError);
      } else {
        assert RevertPanel(ks, olds, i, param) == IncAll(ks, olds, -bs[i].value.value);
        exc := IncEach(bs, -bs[i].value.value);
      }
    } else if bs[i].kind == StoreV2 && param == LongPress {
      assert RevertPanel(ks, olds, i, param) == if Popped(olds[i]).Crash? then Crash(Popped(olds[i]).exc) else Ok(olds[i := Popped(olds[i]).value]);
      exc := PopAt(bs, i);
    } else {
      assert RevertPanel(ks, olds, i, param) == Ok(olds);
      exc := None;
    }
  }
}

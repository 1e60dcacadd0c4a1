/** The depth-first search of `solve`: for every on/off choice of the Store
    buttons and every trial of `iter_buttons`, press, check, adjust the new
    total, recurse, and undo the press. */
module Search {
  import opened Outcomes
  import opened Decimal
  import opened Panel
  import opened Modifiers
  import opened Trials

  /** `portals = (left, right)`: digits past position `left` come back in at
      position `right`. */
  datatype Portal = Portal(left: nat, right: nat)

  /** What stays fixed through one search: the kinds of the buttons, the goal,
      the portal, and the action groups Shift offers for a total (standing for
      `Shift.iter_action_groups`). */
  datatype Game = Game(kinds: seq<Kind>, goal: int, portal: Option<Portal>, groups: int -> seq<string>)

  /** The portals this model follows: the exit lies to the left of the entry. */
  predicate PortalOk(g: Game) {
    g.portal.Some? ==> g.portal.value.right < g.portal.value.left
  }

  /** A lock always holds a digit character. */
  predicate LatchOk(lock: Option<Latch>) {
    lock.Some? ==> IsDigit(lock.value.digit)
  }

  /** One step of a solution: the switches of the Store buttons, the trial, and
      the total it leads to. */
  datatype Move = Move(switches: seq<bool>, trial: Trial, total: int)

  /** How a search ends: a solution, `FailedError`, or an exception the
      search does not catch. */
  datatype Verdict = Found(path: seq<Move>) | Failed | Aborted(exc: Uncaught)

  // ---------------------------------------------------------------------------
  // The Store buttons

  /** How many of the kinds are Store (StoreV2 is not a Store). */
  function CountStores(kinds: seq<Kind>): nat
    decreases |kinds|
  {
    if kinds == [] then 0
    else CountStores(kinds[..|kinds| - 1]) + if kinds[|kinds| - 1] == Store then 1 else 0
  }

  /** How many switches a move sets: one per Store button, and none from a
      negative total. */
  function Repeat(kinds: seq<Kind>, total: int): nat {
    if total >= 0 then CountStores(kinds) else 0
  }

  /** `prev_values`: the values of the Store buttons, in list order. */
  function StoreValues(kinds: seq<Kind>, states: seq<ButtonState>): (vs: seq<Option<int>>)
    requires |kinds| == |states|
    decreases |kinds|
  {
    if kinds == [] then []
    else
      var n := |kinds| - 1;
      StoreValues(kinds[..n], states[..n]) + if kinds[n] == Store then [states[n].value] else []
  }

  /** The values the Store buttons receive: the total where
      the switch is on, the previous value where it is off. */
  function Choices(switches: seq<bool>, prev: seq<Option<int>>, total: int): (vs: seq<Option<int>>)
    ensures |vs| == if |switches| <= |prev| then |switches| else |prev|
  {
    var n := if |switches| <= |prev| then |switches| else |prev|;
    seq(n, k requires 0 <= k < n => if switches[k] then Some(total) else prev[k])
  }

  /** The states after the r-th Store button stores `vals[r]`, for
      every r < |vals|. */
  function Switched(kinds: seq<Kind>, states: seq<ButtonState>, vals: seq<Option<int>>): (ss: seq<ButtonState>)
    requires |kinds| == |states|
    ensures |ss| == |states|
  {
    seq(|states|, j requires 0 <= j < |states| =>
      if kinds[j] == Store && CountStores(kinds[..j]) < |vals| then states[j].(value := vals[CountStores(kinds[..j])])
      else states[j])
  }

  /** Storing nothing changes nothing. */
  lemma SwitchedNone(kinds: seq<Kind>, states: seq<ButtonState>)
    requires |kinds| == |states|
    ensures Switched(kinds, states, []) == states
  {
  }

  /** The number of Store buttons before a Store button is less than the
      number of them all. */
  lemma {:induction false} CountStoresBefore(kinds: seq<Kind>, j: nat)
    requires j < |kinds| && kinds[j] == Store
    ensures CountStores(kinds[..j]) < CountStores(kinds)
    decreases |kinds|
  {
    if j < |kinds| - 1 {
      assert kinds[..|kinds| - 1][..j] == kinds[..j];
      CountStoresBefore(kinds[..|kinds| - 1], j);
    } else {
      assert kinds[..|kinds| - 1] == kinds[..j];
    }
  }

  /** Setting every Store button overwrites whatever an earlier setting left. */
  lemma {:induction false} SwitchedOver(kinds: seq<Kind>, states: seq<ButtonState>, cur: seq<Option<int>>, vals: seq<Option<int>>)
    requires |kinds| == |states|
    requires cur == [] || |vals| == CountStores(kinds)
    ensures Switched(kinds, Switched(kinds, states, cur), vals) == Switched(kinds, states, vals)
  {
    if cur != [] {
      forall j | 0 <= j < |states| && kinds[j] == Store
        ensures CountStores(kinds[..j]) < |vals|
      {
        CountStoresBefore(kinds, j);
      }
    }
  }

  /** The r-th Store value is the value of the r-th Store button. */
  lemma {:induction false} StoreValuesAt(kinds: seq<Kind>, states: seq<ButtonState>, j: nat)
    requires |kinds| == |states| && j < |kinds| && kinds[j] == Store
    ensures CountStores(kinds[..j]) < |StoreValues(kinds, states)|
    ensures StoreValues(kinds, states)[CountStores(kinds[..j])] == states[j].value
    decreases |kinds|
  {
    var n := |kinds| - 1;
    StoreValuesLength(kinds[..n], states[..n]);
    if j < n {
      assert kinds[..n][..j] == kinds[..j];
      assert states[..n][j] == states[j];
      StoreValuesAt(kinds[..n], states[..n], j);
    } else {
      assert kinds[..n] == kinds[..j];
    }
  }

  lemma {:induction false} StoreValuesLength(kinds: seq<Kind>, states: seq<ButtonState>)
    requires |kinds| == |states|
    ensures |StoreValues(kinds, states)| == CountStores(kinds)
    decreases |kinds|
  {
    if kinds != [] {
      StoreValuesLength(kinds[..|kinds| - 1], states[..|kinds| - 1]);
    }
  }

  /** Storing the previous values back gives the states they came from. */
  lemma {:induction false} SwitchedRestores(kinds: seq<Kind>, states: seq<ButtonState>)
    requires |kinds| == |states|
    ensures Switched(kinds, states, StoreValues(kinds, states)) == states
  {
    forall j | 0 <= j < |states| && kinds[j] == Store
      ensures Switched(kinds, states, StoreValues(kinds, states))[j] == states[j]
    {
      StoreValuesAt(kinds, states, j);
    }
  }

  /** Storing values into Store buttons keeps what every button satisfies. */
  lemma {:induction false} SwitchedHolds(kinds: seq<Kind>, states: seq<ButtonState>, vals: seq<Option<int>>)
    requires |kinds| == |states| && AllHold(kinds, states)
    ensures AllHold(kinds, Switched(kinds, states, vals))
  {
  }

  // ---------------------------------------------------------------------------
  // One move

  /** What a trial leads to: the new total, the states of the buttons, and the
      lock for the next move. */
  datatype Next = Next(total: int, states: seq<ButtonState>, lock: Option<Latch>)

  /** The trials exempt from the `redundant step` check: Change, Lock, and a
      StoreV2 long press. */
  predicate Exempt(kind: Kind, param: Param) {
    kind == Change || kind == Lock || (kind == StoreV2 && param == LongPress)
  }

  /** The total after the active lock and then the portal have acted on it. */
  function Landed(x: int, lock: Option<Latch>, portal: Option<Portal>): int
    requires LatchOk(lock)
    requires portal.Some? ==> portal.value.right < portal.value.left
  {
    var y := if lock.Some? then Locked(x, lock.value) else x;
    if portal.Some? then Sign(y) * PortalFold(Abs(y), portal.value.left, portal.value.right) else y
  }

  /** The lock a trial hands to the next move: a Lock button takes one (and
      fails while one is active), every other button hands on none. */
  function NewLock(kind: Kind, param: Param, total: int, lock: Option<Latch>): (r: Outcome<Option<Latch>>)
    requires kind == Lock ==> param.At? && param.pos < NumDigits(Abs(total))
    ensures r.Ok? ==> LatchOk(r.value)
    ensures r.Ok? && r.value.Some? ==> kind == Lock
    ensures !r.Crash?
  {
    if kind != Lock then Ok(None)
    else
      var l := GetLock(total, param.pos, lock);
      if l.Fail? then Fail(l.error) else Ok(Some(l.value))
  }

  /** One trial of `solve` on button states `states`, with `known` the totals
      on the way so far (the current one last): take the lock, press, reject
      an overflow, apply the active lock and the portal, reject a total met
      before unless the trial is exempt. */
  function Attempt(g: Game, states: seq<ButtonState>, total: int, known: seq<int>, lock: Option<Latch>, t: Trial)
    : (r: Outcome<Next>)
    requires |states| == |g.kinds| && t.index < |g.kinds| && PortalOk(g) && LatchOk(lock)
    requires Fits(g.kinds[t.index], t.param, total) && Holds(g.kinds[t.index], states[t.index])
    ensures r.Ok? ==> LatchOk(r.value.lock) && |r.value.states| == |states|
  {
    var l := NewLock(g.kinds[t.index], t.param, total, lock);
    if l.Fail? then Fail(l.error)
    else
      var pr := PressPanel(g.kinds, states, t.index, t.param, total);
      if pr.Fail? then Fail(pr.error)
      else if pr.Crash? then Crash(pr.exc)
      else if pr.value.total > 999999 || pr.value.total < -999999 then Fail(Overflow)
      else
        var y := Landed(pr.value.total, lock, g.portal);
        if !Exempt(g.kinds[t.index], t.param) && y in known then Fail(RedundantStep)
        else Ok(Next(y, pr.value.states, l.value))
  }

  /** A trial that goes through pressed its button without error, within the
      six-digit range before the lock and portal acted, and lands on a total
      not met before unless the trial is exempt; only a Lock press hands a
      lock to the next move. */
  lemma AttemptGuards(g: Game, states: seq<ButtonState>, total: int, known: seq<int>, lock: Option<Latch>, t: Trial, n: Next)
    requires |states| == |g.kinds| && t.index < |g.kinds| && PortalOk(g) && LatchOk(lock)
    requires Fits(g.kinds[t.index], t.param, total) && Holds(g.kinds[t.index], states[t.index])
    requires Attempt(g, states, total, known, lock, t) == Ok(n)
    ensures PressPanel(g.kinds, states, t.index, t.param, total).Ok?
    ensures var x := PressPanel(g.kinds, states, t.index, t.param, total).value.total;
      -999999 <= x <= 999999 && n.total == Landed(x, lock, g.portal)
    ensures n.states == PressPanel(g.kinds, states, t.index, t.param, total).value.states
    ensures !Exempt(g.kinds[t.index], t.param) ==> n.total !in known
    ensures g.kinds[t.index] != Lock ==> n.lock == None
  {
  }

  // ---------------------------------------------------------------------------
  // Solutions

  /** Trial t, on the button states `sw` after the Store buttons are set,
      leads to total `to`: what it leads to. */
  function Advance(g: Game, sw: seq<ButtonState>, total: int, known: seq<int>, lock: Option<Latch>, t: Trial, to: int)
    : (r: Option<Next>)
    requires |sw| == |g.kinds| && t.index < |g.kinds| && PortalOk(g) && LatchOk(lock)
    requires Fits(g.kinds[t.index], t.param, total) && AllHold(g.kinds, sw)
    ensures r.Some? ==> Attempt(g, sw, total, known, lock, t) == Ok(r.value) && r.value.total == to
    ensures r.None? ==> !Attempt(g, sw, total, known, lock, t).Ok? || Attempt(g, sw, total, known, lock, t).value.total != to
  {
    var a := Attempt(g, sw, total, known, lock, t);
    if a.Ok? && a.value.total == to then Some(a.value) else None
  }

  /** The states a move's trial is made on: the Store buttons set as its
      switches say. */
  function SwitchedFor(g: Game, states: seq<ButtonState>, total: int, switches: seq<bool>): seq<ButtonState>
    requires |states| == |g.kinds|
  {
    Switched(g.kinds, states, Choices(switches, StoreValues(g.kinds, states), total))
  }

  /** A legal move from `total`, made on `states` with `known` the totals on
      the way (the current one last): what it leads to. */
  function Step(g: Game, states: seq<ButtonState>, total: int, known: seq<int>, lock: Option<Latch>, m: Move)
    : Option<Next>
  {
    if |states| == |g.kinds| && PortalOk(g) && LatchOk(lock)
       && |m.switches| == Repeat(g.kinds, total)
       && m.trial in IterButtons(total, g.kinds, g.groups)
       && m.trial.index < |g.kinds| && Fits(g.kinds[m.trial.index], m.trial.param, total)
       && AllHold(g.kinds, SwitchedFor(g, states, total, m.switches))
    then Advance(g, SwitchedFor(g, states, total, m.switches), total, known, lock, m.trial, m.total)
    else None
  }

  /** `path` solves the game from `total` within `moves` moves, from button
      states `states`, with `known` the totals before this one and `lock` the
      active lock. */
  ghost predicate Solves(g: Game, states: seq<ButtonState>, total: int, known: seq<int>, lock: Option<Latch>,
                         moves: int, path: seq<Move>)
    decreases |path|
  {
    if path == [] then total == g.goal
    else
      && total != g.goal && moves > 0
      && Step(g, states, total, known + [total], lock, path[0]).Some?
      && var n := Step(g, states, total, known + [total], lock, path[0]).value;
         Solves(g, n.states, n.total, known + [total], n.lock, moves - 1, path[1..])
  }

  /** A solution from `total` whose first move is m; `known` ends with
      `total`. */
  ghost predicate SolvesVia(g: Game, states: seq<ButtonState>, total: int, known: seq<int>, lock: Option<Latch>,
                            moves: int, m: Move, rest: seq<Move>)
  {
    Step(g, states, total, known, lock, m).Some?
    && var n := Step(g, states, total, known, lock, m).value;
       Solves(g, n.states, n.total, known, n.lock, moves - 1, rest)
  }

  /** Trial t on the states `sw` leads to total `to`, from which `rest` solves
      the game. */
  ghost predicate Continues(g: Game, sw: seq<ButtonState>, total: int, known: seq<int>, lock: Option<Latch>,
                            moves: int, t: Trial, to: int, rest: seq<Move>)
  {
    && |sw| == |g.kinds| && t.index < |g.kinds| && PortalOk(g) && LatchOk(lock)
    && Fits(g.kinds[t.index], t.param, total) && AllHold(g.kinds, sw)
    && Advance(g, sw, total, known, lock, t, to).Some?
    && var n := Advance(g, sw, total, known, lock, t, to).value;
       Solves(g, n.states, to, known, n.lock, moves - 1, rest)
  }

  /** Trial t on the states `sw` continues to no solution. */
  ghost predicate Stuck(g: Game, sw: seq<ButtonState>, total: int, known: seq<int>, lock: Option<Latch>,
                        moves: int, t: Trial)
  {
    forall to, rest :: !Continues(g, sw, total, known, lock, moves, t, to, rest)
  }

  /** No first move with these switches solves the game; `known` ends with
      `total`. */
  ghost predicate NoneWith(g: Game, states: seq<ButtonState>, total: int, known: seq<int>, lock: Option<Latch>,
                           moves: int, switches: seq<bool>)
  {
    forall m: Move, rest :: m.switches == switches ==> !SolvesVia(g, states, total, known, lock, moves, m, rest)
  }

  /** No path solves the game from `total`. */
  ghost predicate Unsolvable(g: Game, states: seq<ButtonState>, total: int, known: seq<int>, lock: Option<Latch>,
                             moves: int)
  {
    forall path :: !Solves(g, states, total, known, lock, moves, path)
  }

  /** The totals `known_totals` gains on the way to a solution: every total
      but the goal. */
  function Visited(total: int, path: seq<Move>): (r: seq<int>)
    ensures |r| == |path|
    decreases |path|
  {
    if path == [] then [] else [total] + Visited(path[0].total, path[1..])
  }

  /** The total a path ends on. */
  function Last(total: int, path: seq<Move>): int {
    if path == [] then total else path[|path| - 1].total
  }

  /** A solution reaches the goal in at most `moves` moves. */
  lemma {:induction false} SolutionShape(g: Game, states: seq<ButtonState>, total: int, known: seq<int>,
                                         lock: Option<Latch>, moves: int, path: seq<Move>)
    requires Solves(g, states, total, known, lock, moves, path)
    ensures |path| <= if moves > 0 then moves else 0
    ensures Last(total, path) == g.goal
    decreases |path|
  {
    if path != [] {
      SolutionShape(g, Step(g, states, total, known + [total], lock, path[0]).value.states, path[0].total,
        known + [total], Step(g, states, total, known + [total], lock, path[0]).value.lock, moves - 1, path[1..]);
    }
  }

  /** A solution that is not empty is a first move and a solution after it. */
  lemma SolvesFirst(g: Game, states: seq<ButtonState>, total: int, known: seq<int>, lock: Option<Latch>,
                    moves: int, path: seq<Move>)
    requires total != g.goal && moves > 0 && path != []
    ensures Solves(g, states, total, known, lock, moves, path) <==>
      SolvesVia(g, states, total, known + [total], lock, moves, path[0], path[1..])
  {
  }

  /** A first move solves exactly when it is legal and its trial continues
      on the states its switches give. */
  lemma ViaContinues(g: Game, entry: seq<ButtonState>, total: int, known: seq<int>, lock: Option<Latch>,
                     moves: int, m: Move, rest: seq<Move>)
    requires |entry| == |g.kinds| && PortalOk(g) && LatchOk(lock) && AllHold(g.kinds, entry)
    ensures SolvesVia(g, entry, total, known, lock, moves, m, rest) <==>
      && |m.switches| == Repeat(g.kinds, total) && m.trial in IterButtons(total, g.kinds, g.groups)
      && Continues(g, SwitchedFor(g, entry, total, m.switches), total, known, lock, moves, m.trial, m.total, rest)
  {
    SwitchedHolds(g.kinds, entry, Choices(m.switches, StoreValues(g.kinds, entry), total));
    if m.trial in IterButtons(total, g.kinds, g.groups) {
      IterButtonsFit(total, g.kinds, g.groups, m.trial);
    }
  }

  /** A first move that solves, followed by the rest of the path, solves. */
  lemma SolvesByFirst(g: Game, states: seq<ButtonState>, total: int, known: seq<int>, lock: Option<Latch>,
                      moves: int, path: seq<Move>)
    requires total != g.goal && moves > 0 && path != []
    requires SolvesVia(g, states, total, known + [total], lock, moves, path[0], path[1..])
    ensures Solves(g, states, total, known, lock, moves, path)
  {
    SolvesFirst(g, states, total, known, lock, moves, path);
  }

  /** A legal first move whose trial continues to a solution solves. */
  lemma ViaByContinues(g: Game, entry: seq<ButtonState>, total: int, known: seq<int>, lock: Option<Latch>,
                       moves: int, m: Move, rest: seq<Move>)
    requires |entry| == |g.kinds| && PortalOk(g) && LatchOk(lock) && AllHold(g.kinds, entry)
    requires |m.switches| == Repeat(g.kinds, total) && m.trial in IterButtons(total, g.kinds, g.groups)
    requires Continues(g, SwitchedFor(g, entry, total, m.switches), total, known, lock, moves, m.trial, m.total, rest)
    ensures SolvesVia(g, entry, total, known, lock, moves, m, rest)
  {
    ViaContinues(g, entry, total, known, lock, moves, m, rest);
  }

  /** A trial whose attempt does not succeed continues nowhere. */
  lemma NoContinuation(g: Game, sw: seq<ButtonState>, total: int, known: seq<int>, lock: Option<Latch>,
                       moves: int, t: Trial)
    requires |sw| == |g.kinds| && t.index < |g.kinds| && PortalOk(g) && LatchOk(lock)
    requires Fits(g.kinds[t.index], t.param, total) && AllHold(g.kinds, sw)
    requires !Attempt(g, sw, total, known, lock, t).Ok?
    ensures Stuck(g, sw, total, known, lock, moves, t)
  {
  }

  /** A trial whose next position has no solution continues nowhere. */
  lemma DeadEnd(g: Game, sw: seq<ButtonState>, total: int, known: seq<int>, lock: Option<Latch>,
                moves: int, t: Trial, n: Next)
    requires |sw| == |g.kinds| && t.index < |g.kinds| && PortalOk(g) && LatchOk(lock)
    requires Fits(g.kinds[t.index], t.param, total) && AllHold(g.kinds, sw)
    requires Attempt(g, sw, total, known, lock, t) == Ok(n)
    requires Unsolvable(g, n.states, n.total, known, n.lock, moves - 1)
    ensures Stuck(g, sw, total, known, lock, moves, t)
  {
  }

  /** A solution from the position a trial leads to continues the trial. */
  lemma Continuation(g: Game, sw: seq<ButtonState>, total: int, known: seq<int>, lock: Option<Latch>,
                     moves: int, t: Trial, n: Next, rest: seq<Move>)
    requires |sw| == |g.kinds| && t.index < |g.kinds| && PortalOk(g) && LatchOk(lock)
    requires Fits(g.kinds[t.index], t.param, total) && AllHold(g.kinds, sw)
    requires Attempt(g, sw, total, known, lock, t) == Ok(n)
    requires Solves(g, n.states, n.total, known, n.lock, moves - 1, rest)
    ensures Continues(g, sw, total, known, lock, moves, t, n.total, rest)
  {
  }

  /** When no trial of `iter_buttons` continues on the switched states, no
      first move with those switches solves. */
  lemma NoneVia(g: Game, entry: seq<ButtonState>, total: int, known: seq<int>, lock: Option<Latch>,
                moves: int, switches: seq<bool>)
    requires |entry| == |g.kinds| && PortalOk(g) && LatchOk(lock) && AllHold(g.kinds, entry)
    requires forall j :: 0 <= j < |IterButtons(total, g.kinds, g.groups)| ==>
      Stuck(g, SwitchedFor(g, entry, total, switches), total, known, lock, moves, IterButtons(total, g.kinds, g.groups)[j])
    ensures NoneWith(g, entry, total, known, lock, moves, switches)
  {
    forall m: Move, rest | m.switches == switches
      ensures !SolvesVia(g, entry, total, known, lock, moves, m, rest)
    {
      ViaContinues(g, entry, total, known, lock, moves, m, rest);
      if m.trial in IterButtons(total, g.kinds, g.groups) {
        var j :| 0 <= j < |IterButtons(total, g.kinds, g.groups)| && IterButtons(total, g.kinds, g.groups)[j] == m.trial;
      }
    }
  }

  /** When no choice of switches gives a first move that solves, nothing
      solves. */
  lemma NoneFromCombos(g: Game, entry: seq<ButtonState>, total: int, known: seq<int>, lock: Option<Latch>,
                       moves: int)
    requires |entry| == |g.kinds| && PortalOk(g) && LatchOk(lock) && AllHold(g.kinds, entry)
    requires total != g.goal && moves > 0
    requires forall j :: 0 <= j < |Combos(Repeat(g.kinds, total))| ==>
      NoneWith(g, entry, total, known + [total], lock, moves, Combos(Repeat(g.kinds, total))[j])
    ensures Unsolvable(g, entry, total, known, lock, moves)
  {
    forall path: seq<Move> ensures !Solves(g, entry, total, known, lock, moves, path) {
      if path != [] {
        SolvesFirst(g, entry, total, known, lock, moves, path);
        ViaContinues(g, entry, total, known + [total], lock, moves, path[0], path[1..]);
        if |path[0].switches| == Repeat(g.kinds, total) {
          CombosCover(path[0].switches);
          var j :| 0 <= j < |Combos(Repeat(g.kinds, total))| && Combos(Repeat(g.kinds, total))[j] == path[0].switches;
        }
      }
    }
  }

  lemma StuckSnoc(g: Game, sw: seq<ButtonState>, total: int, known: seq<int>, lock: Option<Latch>,
                  moves: int, ts: seq<Trial>, k: nat)
    requires k < |ts| && Stuck(g, sw, total, known, lock, moves, ts[k])
    requires forall j :: 0 <= j < k ==> Stuck(g, sw, total, known, lock, moves, ts[j])
    ensures forall j :: 0 <= j < k + 1 ==> Stuck(g, sw, total, known, lock, moves, ts[j])
  {
  }

  lemma NoneWithSnoc(g: Game, states: seq<ButtonState>, total: int, known: seq<int>, lock: Option<Latch>,
                     moves: int, cs: seq<seq<bool>>, c: nat)
    requires c < |cs| && NoneWith(g, states, total, known, lock, moves, cs[c])
    requires forall j :: 0 <= j < c ==> NoneWith(g, states, total, known, lock, moves, cs[j])
    ensures forall j :: 0 <= j < c + 1 ==> NoneWith(g, states, total, known, lock, moves, cs[j])
  {
  }

  /** The totals visited on a path that is not empty start with its first
      total. */
  lemma VisitedFirst(known: seq<int>, total: int, path: seq<Move>)
    requires path != []
    ensures known + Visited(total, path) == known + [total] + Visited(path[0].total, path[1..])
  {
  }

  // ---------------------------------------------------------------------------
  // The search

  /** `known_totals`: the list of totals the recursion shares. */
  class Trail {
    var totals: seq<int>

    constructor ()
      ensures totals == []
    {
      totals := [];
    }
  }

  /** The Store loops of `solve`: the r-th Store button of the list gets
      vals[r], for every r < |vals|. */
  method SetStores(bs: seq<Button>, vals: seq<Option<int>>)
    requires Distinct(bs)
    modifies set b | b in bs
    ensures Snapshot(bs) == Switched(Kinds(bs), old(Snapshot(bs)), vals)
  {
    ghost var ks, olds := Kinds(bs), Snapshot(bs);
    var j, r := 0, 0;
    while j < |bs|
      invariant 0 <= j <= |bs| && r == CountStores(ks[..j])
      invariant forall q :: 0 <= q < j ==> Snapshot(bs)[q] == Switched(ks, olds, vals)[q]
      invariant forall q :: j <= q < |bs| ==> Snapshot(bs)[q] == olds[q]
    {
      if bs[j].kind == Store {
        if r < |vals| {
          SetAt(bs, j, vals[r]);
        }
        r := r + 1;
      }
      assert ks[..j + 1][..j] == ks[..j];
      j := j + 1;
    }
  }

  /** The total after the active lock and then the portal. */
  method Land(x: int, lock: Option<Latch>, portal: Option<Portal>) returns (y: int)
    requires LatchOk(lock) && (portal.Some? ==> portal.value.right < portal.value.left)
    ensures y == Landed(x, lock, portal)
  {
    y := x;
    if lock.Some? {
      y := ApplyLock(y, lock.value);
    }
    if portal.Some? {
      y := DoPortal(y, portal.value.left, portal.value.right);
    }
  }

  /** Where a trial lands before the recursion: its total and the lock it
      hands on. */
  datatype Landing = Landing(total: int, lock: Option<Latch>)

  /** The first `try` block of a trial and the checks of the second: take the
      lock, press, reject an overflow, land, reject a redundant step.  A
      rejection after the press runs the `finally` revert. */
  method MakeAttempt(bs: seq<Button>, g: Game, total: int, known: seq<int>, lock: Option<Latch>, t: Trial)
    returns (r: Outcome<Landing>)
    requires Distinct(bs) && Kinds(bs) == g.kinds && PortalOk(g) && LatchOk(lock)
    requires AllHold(g.kinds, Snapshot(bs)) && t.index < |g.kinds| && Fits(g.kinds[t.index], t.param, total)
    modifies set b | b in bs
    ensures r.Ok? ==> Attempt(g, old(Snapshot(bs)), total, known, lock, t) == Ok(Next(r.value.total, Snapshot(bs), r.value.lock))
    ensures r.Ok? ==> AllHold(g.kinds, Snapshot(bs))
    ensures r.Ok? ==> RevertPanel(g.kinds, Snapshot(bs), t.index, t.param) == Ok(old(Snapshot(bs)))
    ensures r.Fail? ==> Attempt(g, old(Snapshot(bs)), total, known, lock, t).Fail? && Snapshot(bs) == old(Snapshot(bs))
    ensures r.Crash? ==> Attempt(g, old(Snapshot(bs)), total, known, lock, t) == Crash(r.exc)
  {
    ghost var before := Snapshot(bs);
    r := PressTrial(bs, g, total, known, lock, t);
    if !r.Ok? {
      return;
    }
    if r.value.total > 999999 || r.value.total < -999999 {
      var e := RevertButton(bs, t.index, t.param);
      return Fail(Overflow);
    }
    var y := Land(r.value.total, lock, g.portal);
    if !Exempt(bs[t.index].kind, t.param) && y in known {
      var e := RevertButton(bs, t.index, t.param);
      return Fail(RedundantStep);
    }
    return Ok(Landing(y, r.value.lock));
  }

  /** The first `try` block of a trial: take the lock, then press.  On
      success the result holds the pressed total (before the lock and the
      portal act) and the lock to hand on. */
  method PressTrial(bs: seq<Button>, g: Game, total: int, ghost known: seq<int>, lock: Option<Latch>, t: Trial)
    returns (r: Outcome<Landing>)
    requires Distinct(bs) && Kinds(bs) == g.kinds && PortalOk(g) && LatchOk(lock)
    requires AllHold(g.kinds, Snapshot(bs)) && t.index < |g.kinds| && Fits(g.kinds[t.index], t.param, total)
    modifies set b | b in bs
    ensures r.Ok? ==> NewLock(g.kinds[t.index], t.param, total, lock) == Ok(r.value.lock)
    ensures r.Ok? ==> PressPanel(g.kinds, old(Snapshot(bs)), t.index, t.param, total) == Ok(Pressed(r.value.total, Snapshot(bs)))
    ensures r.Ok? ==> AllHold(g.kinds, Snapshot(bs))
    ensures r.Ok? ==> RevertPanel(g.kinds, Snapshot(bs), t.index, t.param) == Ok(old(Snapshot(bs)))
    ensures r.Fail? ==> Attempt(g, old(Snapshot(bs)), total, known, lock, t).Fail? && Snapshot(bs) == old(Snapshot(bs))
    ensures r.Crash? ==> Attempt(g, old(Snapshot(bs)), total, known, lock, t) == Crash(r.exc)
  {
    var i, p := t.index, t.param;
    ghost var before := Snapshot(bs);
    var newLock: Option<Latch> := None;
    if bs[i].kind == Lock {
      var l := GetLock(total, p.pos, lock);
      if l.Fail? {
        return Fail(l.error);
      }
      newLock := Some(l.value);
    }
    assert NewLock(g.kinds[i], p, total, lock) == Ok(newLock);
    var pr := PressButton(bs, i, p, total);
    if pr.Fail? {
      return Fail(pr.error);
    }
    if pr.Crash? {
      return Crash(pr.exc);
    }
    assert PressEffect(g.kinds, before, i, p, total) == Ok(Snapshot(bs));
    RevertUndoesPress(g.kinds, before, i, p, total);
    return Ok(Landing(pr.value, newLock));
  }

  /** One trial of `solve`: the attempt, then the recursion and the `finally`
      revert. */
  method TryTrial(bs: seq<Button>, trail: Trail, g: Game, total: int, moves: int, lock: Option<Latch>,
                  prev: seq<Option<int>>, switches: seq<bool>, t: Trial, ghost before: seq<ButtonState>)
    returns (v: Verdict)
    requires Distinct(bs) && Kinds(bs) == g.kinds && PortalOk(g) && LatchOk(lock) && moves > 0
    requires Snapshot(bs) == before && AllHold(g.kinds, before)
    requires t.index < |g.kinds| && Fits(g.kinds[t.index], t.param, total)
    modifies (set b | b in bs), trail
    decreases moves, 1
    ensures v.Found? ==>
      && v.path != [] && v.path[0].switches == switches && v.path[0].trial == t
      && Continues(g, before, total, old(trail.totals), lock, moves, t, v.path[0].total, v.path[1..])
    ensures v.Found? ==> trail.totals == old(trail.totals) + Visited(v.path[0].total, v.path[1..])
    ensures !v.Aborted? ==> AllHold(g.kinds, Snapshot(bs))
    ensures v.Failed? ==> Snapshot(bs) == before && trail.totals == old(trail.totals)
    ensures v.Failed? ==> Stuck(g, before, total, old(trail.totals), lock, moves, t)
  {
    var a := MakeAttempt(bs, g, total, trail.totals, lock, t);
    if a.Fail? {
      NoContinuation(g, before, total, trail.totals, lock, moves, t);
      return Failed;
    }
    if a.Crash? {
      return Aborted(a.exc);
    }
    ghost var known, next := trail.totals, Next(a.value.total, Snapshot(bs), a.value.lock);
    v := Descend(bs, trail, g, moves, prev, switches, t, before, a.value);
    if v.Found? {
      Continuation(g, before, total, known, lock, moves, t, next, v.path[1..]);
    } else if v.Failed? {
      DeadEnd(g, before, total, known, lock, moves, t, next);
    }
  }

  /** The second `try` block of a trial, after a press that landed: the
      recursion, then on a solution the Store buttons put back, and in every
      case the `finally` revert. */
  method Descend(bs: seq<Button>, trail: Trail, g: Game, moves: int, prev: seq<Option<int>>, switches: seq<bool>,
                 t: Trial, ghost before: seq<ButtonState>, land: Landing) returns (v: Verdict)
    requires Distinct(bs) && Kinds(bs) == g.kinds && PortalOk(g) && LatchOk(land.lock) && moves > 0
    requires AllHold(g.kinds, Snapshot(bs)) && t.index < |g.kinds|
    requires RevertPanel(g.kinds, Snapshot(bs), t.index, t.param) == Ok(before) && AllHold(g.kinds, before)
    modifies (set b | b in bs), trail
    decreases moves, 0
    ensures v.Found? ==>
      && v.path != [] && v.path[0] == Move(switches, t, land.total)
      && Solves(g, old(Snapshot(bs)), land.total, old(trail.totals), land.lock, moves - 1, v.path[1..])
    ensures v.Found? ==> trail.totals == old(trail.totals) + Visited(land.total, v.path[1..])
    ensures !v.Aborted? ==> AllHold(g.kinds, Snapshot(bs))
    ensures v.Failed? ==> Snapshot(bs) == before && trail.totals == old(trail.totals)
    ensures v.Failed? ==> Unsolvable(g, old(Snapshot(bs)), land.total, old(trail.totals), land.lock, moves - 1)
  {
    var sub := Solve(bs, trail, g, land.total, moves - 1, land.lock);
    if sub.Found? {
      v := Ascend(bs, g, prev, switches, t, land.total, sub.path);
    } else {
      v := Unwind(bs, g, t, before, sub);
    }
  }

  /** After a solution below a trial: the Store buttons get back the values
      they had before the switches, the `finally` revert runs, and the
      solution is the trial's move followed by the one below. */
  method Ascend(bs: seq<Button>, g: Game, prev: seq<Option<int>>, switches: seq<bool>, t: Trial, to: int,
                sub: seq<Move>) returns (v: Verdict)
    requires Distinct(bs) && Kinds(bs) == g.kinds && AllHold(g.kinds, Snapshot(bs)) && t.index < |g.kinds|
    modifies set b | b in bs
    ensures !v.Failed?
    ensures v.Found? ==> v.path != [] && v.path[0] == Move(switches, t, to) && v.path[1..] == sub
    ensures v.Found? ==> AllHold(g.kinds, Snapshot(bs))
  {
    ghost var found := Snapshot(bs);
    SetStores(bs, prev);
    SwitchedHolds(g.kinds, found, prev);
    ghost var restored := Snapshot(bs);
    var e := RevertButton(bs, t.index, t.param);
    if e.Some? {
      return Aborted(e.value);
    }
    RevertKeepsHolds(g.kinds, restored, t.index, t.param, Snapshot(bs));
    v := Found([Move(switches, t, to)] + sub);
    assert v.path[1..] == sub;
  }

  /** The `finally` revert after a recursion that found nothing or crashed;
      a crash in the revert itself takes precedence. */
  method Unwind(bs: seq<Button>, g: Game, t: Trial, ghost before: seq<ButtonState>, sub: Verdict) returns (v: Verdict)
    requires Distinct(bs) && Kinds(bs) == g.kinds && t.index < |g.kinds| && !sub.Found?
    requires sub.Failed? ==> RevertPanel(g.kinds, Snapshot(bs), t.index, t.param) == Ok(before)
    modifies set b | b in bs
    ensures !v.Found?
    ensures v.Failed? ==> sub.Failed? && Snapshot(bs) == before
  {
    var e := RevertButton(bs, t.index, t.param);
    v := if e.Some? then Aborted(e.value) else if sub.Aborted? then Aborted(sub.exc) else Failed;
  }

  /** One round of the `itertools.product` loop: set the Store buttons as the
      switches say, then make every trial of `iter_buttons`. */
  method TryCombo(bs: seq<Button>, trail: Trail, g: Game, total: int, moves: int, lock: Option<Latch>,
                  ghost entry: seq<ButtonState>, prev: seq<Option<int>>, ghost cur: seq<Option<int>>,
                  switches: seq<bool>) returns (v: Verdict)
    requires Distinct(bs) && Kinds(bs) == g.kinds && PortalOk(g) && LatchOk(lock) && moves > 0
    requires |entry| == |g.kinds| && AllHold(g.kinds, entry)
    requires cur == [] || (total >= 0 && |cur| == CountStores(g.kinds))
    requires Snapshot(bs) == Switched(g.kinds, entry, cur)
    requires prev == StoreValues(g.kinds, entry) && |switches| == Repeat(g.kinds, total)
    modifies (set b | b in bs), trail
    decreases moves, 2
    ensures v.Found? ==>
      && v.path != [] && v.path[0].switches == switches
      && SolvesVia(g, entry, total, old(trail.totals), lock, moves, v.path[0], v.path[1..])
    ensures v.Found? ==> trail.totals == old(trail.totals) + Visited(v.path[0].total, v.path[1..])
    ensures !v.Aborted? ==> AllHold(g.kinds, Snapshot(bs))
    ensures v.Failed? ==> Snapshot(bs) == SwitchedFor(g, entry, total, switches) && trail.totals == old(trail.totals)
    ensures v.Failed? ==> NoneWith(g, entry, total, old(trail.totals), lock, moves, switches)
  {
    Arrange(bs, g, total, entry, prev, cur, switches);
    ghost var sw := Snapshot(bs);
    var trials := IterButtons(total, g.kinds, g.groups);
    var k := 0;
    while k < |trials|
      invariant 0 <= k <= |trials|
      invariant Snapshot(bs) == sw
      invariant trail.totals == old(trail.totals)
      invariant forall j :: 0 <= j < k ==> Stuck(g, sw, total, old(trail.totals), lock, moves, trials[j])
    {
      IterButtonsFit(total, g.kinds, g.groups, trials[k]);
      v := TryTrial(bs, trail, g, total, moves, lock, prev, switches, trials[k], sw);
      if v.Found? {
        ViaByContinues(g, entry, total, old(trail.totals), lock, moves, v.path[0], v.path[1..]);
        return;
      }
      if v.Aborted? {
        return;
      }
      StuckSnoc(g, sw, total, old(trail.totals), lock, moves, trials, k);
      k := k + 1;
    }
    NoneVia(g, entry, total, old(trail.totals), lock, moves, switches);
    return Failed;
  }

  /** Sets every Store button to the total where its switch is on and to its
      value on entry where it is off. */
  method Arrange(bs: seq<Button>, g: Game, total: int, ghost entry: seq<ButtonState>, prev: seq<Option<int>>,
                 ghost cur: seq<Option<int>>, switches: seq<bool>)
    requires Distinct(bs) && Kinds(bs) == g.kinds
    requires |entry| == |g.kinds| && AllHold(g.kinds, entry)
    requires cur == [] || (total >= 0 && |cur| == CountStores(g.kinds))
    requires Snapshot(bs) == Switched(g.kinds, entry, cur)
    requires prev == StoreValues(g.kinds, entry) && |switches| == Repeat(g.kinds, total)
    modifies set b | b in bs
    ensures Snapshot(bs) == SwitchedFor(g, entry, total, switches) && AllHold(g.kinds, Snapshot(bs))
  {
    StoreValuesLength(g.kinds, entry);
    SetStores(bs, Choices(switches, prev, total));
    SwitchedOver(g.kinds, entry, cur, Choices(switches, prev, total));
    SwitchedHolds(g.kinds, entry, Choices(switches, prev, total));
  }

  /** `solve`: a solution when there is one, `FailedError` when there is none, with the
      buttons and `known_totals` as they were. */
  method Solve(bs: seq<Button>, trail: Trail, g: Game, total: int, moves: int, lock: Option<Latch>) returns (v: Verdict)
    requires Distinct(bs) && Kinds(bs) == g.kinds && PortalOk(g) && LatchOk(lock)
    requires AllHold(g.kinds, Snapshot(bs))
    modifies (set b | b in bs), trail
    decreases if moves > 0 then moves else 0, 5
    ensures v.Found? ==> Solves(g, old(Snapshot(bs)), total, old(trail.totals), lock, moves, v.path)
    ensures v.Found? ==> trail.totals == old(trail.totals) + Visited(total, v.path)
    ensures !v.Aborted? ==> AllHold(g.kinds, Snapshot(bs))
    ensures v.Failed? ==> Snapshot(bs) == old(Snapshot(bs)) && trail.totals == old(trail.totals)
    ensures v.Failed? ==> Unsolvable(g, old(Snapshot(bs)), total, old(trail.totals), lock, moves)
  {
    if total == g.goal {
      return Found([]);
    }
    if moves <= 0 {
      return Failed;
    }
    v := Expand(bs, trail, g, total, moves, lock);
  }

  /** `solve` past its two early returns: `known_totals` gains the total,
      every choice of switches is tried, and when none leads anywhere the
      total is popped and the Store buttons get their values back. */
  method Expand(bs: seq<Button>, trail: Trail, g: Game, total: int, moves: int, lock: Option<Latch>) returns (v: Verdict)
    requires Distinct(bs) && Kinds(bs) == g.kinds && PortalOk(g) && LatchOk(lock)
    requires AllHold(g.kinds, Snapshot(bs)) && total != g.goal && moves > 0
    modifies (set b | b in bs), trail
    decreases moves, 4
    ensures v.Found? ==> Solves(g, old(Snapshot(bs)), total, old(trail.totals), lock, moves, v.path)
    ensures v.Found? ==> trail.totals == old(trail.totals) + Visited(total, v.path)
    ensures !v.Aborted? ==> AllHold(g.kinds, Snapshot(bs))
    ensures v.Failed? ==> Snapshot(bs) == old(Snapshot(bs)) && trail.totals == old(trail.totals)
    ensures v.Failed? ==> Unsolvable(g, old(Snapshot(bs)), total, old(trail.totals), lock, moves)
  {
    ghost var known, entry := trail.totals, Snapshot(bs);
    trail.totals := trail.totals + [total];
    var prev := StoreValues(g.kinds, Snapshot(bs));
    ghost var cur;
    v, cur := TryCombos(bs, trail, g, total, moves, lock, known, entry, prev);
    if v.Found? {
      SolvesByFirst(g, entry, total, known, lock, moves, v.path);
      VisitedFirst(known, total, v.path);
      return;
    }
    if v.Aborted? {
      return;
    }
    trail.totals := trail.totals[..|trail.totals| - 1];
    Restore(bs, g, entry, prev, cur, total);
  }

  /** The `itertools.product` loop of `solve`: every choice of switches, in
      order, until one finds a solution or a press crashes. */
  method TryCombos(bs: seq<Button>, trail: Trail, g: Game, total: int, moves: int, lock: Option<Latch>,
                   ghost known: seq<int>, ghost entry: seq<ButtonState>, prev: seq<Option<int>>)
    returns (v: Verdict, ghost cur: seq<Option<int>>)
    requires Distinct(bs) && Kinds(bs) == g.kinds && PortalOk(g) && LatchOk(lock)
    requires Snapshot(bs) == entry && AllHold(g.kinds, entry) && total != g.goal && moves > 0
    requires trail.totals == known + [total] && prev == StoreValues(g.kinds, entry)
    modifies (set b | b in bs), trail
    decreases moves, 3
    ensures v.Found? ==>
      && v.path != [] && SolvesVia(g, entry, total, known + [total], lock, moves, v.path[0], v.path[1..])
      && trail.totals == known + [total] + Visited(v.path[0].total, v.path[1..])
    ensures !v.Aborted? ==> AllHold(g.kinds, Snapshot(bs))
    ensures v.Failed? ==> trail.totals == known + [total]
    ensures v.Failed? ==> cur == [] || (total >= 0 && |cur| == CountStores(g.kinds))
    ensures v.Failed? ==> Snapshot(bs) == Switched(g.kinds, entry, cur)
    ensures v.Failed? ==> Unsolvable(g, entry, total, known, lock, moves)
  {
    StoreValuesLength(g.kinds, entry);
    SwitchedNone(g.kinds, entry);
    var combos := Combos(Repeat(g.kinds, total));
    CombosLength(Repeat(g.kinds, total));
    cur := [];
    var c := 0;
    while c < |combos|
      invariant 0 <= c <= |combos|
      invariant cur == [] || (total >= 0 && |cur| == CountStores(g.kinds))
      invariant Snapshot(bs) == Switched(g.kinds, entry, cur) && trail.totals == known + [total]
      invariant forall j :: 0 <= j < c ==> NoneWith(g, entry, total, known + [total], lock, moves, combos[j])
    {
      assert combos[c] in combos;
      v := TryCombo(bs, trail, g, total, moves, lock, entry, prev, cur, combos[c]);
      if !v.Failed? {
        return;
      }
      NoneWithSnoc(g, entry, total, known + [total], lock, moves, combos, c);
      cur := Choices(combos[c], prev, total);
      c := c + 1;
    }
    SwitchedHolds(g.kinds, entry, cur);
    NoneFromCombos(g, entry, total, known, lock, moves);
    return Failed, cur;
  }

  /** Gives every Store button back the value it had on entry. */
  method Restore(bs: seq<Button>, g: Game, ghost entry: seq<ButtonState>, prev: seq<Option<int>>,
                 ghost cur: seq<Option<int>>, total: int)
    requires Distinct(bs) && Kinds(bs) == g.kinds && |entry| == |g.kinds|
    requires cur == [] || (total >= 0 && |cur| == CountStores(g.kinds))
    requires Snapshot(bs) == Switched(g.kinds, entry, cur) && prev == StoreValues(g.kinds, entry)
    modifies set b | b in bs
    ensures Snapshot(bs) == entry
  {
    StoreValuesLength(g.kinds, entry);
    SetStores(bs, prev);
    SwitchedOver(g.kinds, entry, cur, prev);
    SwitchedRestores(g.kinds, entry);
  }

  /** The top-level call: a fresh `known_totals` and no active lock. */
  method Run(bs: seq<Button>, g: Game, total: int, moves: int) returns (v: Verdict)
    requires Distinct(bs) && Kinds(bs) == g.kinds && PortalOk(g) && AllHold(g.kinds, Snapshot(bs))
    modifies set b | b in bs
    ensures v.Found? ==> Solves(g, old(Snapshot(bs)), total, [], None, moves, v.path)
    ensures v.Failed? ==> Snapshot(bs) == old(Snapshot(bs))
    ensures v.Failed? ==> Unsolvable(g, old(Snapshot(bs)), total, [], None, moves)
  {
    var trail := new Trail();
    v := Solve(bs, trail, g, total, moves, None);
  }
}

# Calculator: The Game — solver model

This project is a Dafny model of the solver in `calculator-solver.py` for the
puzzle game *Calculator: The Game*. A level has a starting total, a goal, a
number of moves and a panel of buttons. Each button press maps the total to a
new total, or fails with a `CalcError`. Some buttons also change the panel:

- Change sends its number to every button's `inc`.
- Store keeps a value that the search may overwrite with the current total.
- StoreV2 keeps a history stack.

The solver is a depth-first search bounded by the number of moves. It enumerates:

- every on/off choice for the Store buttons;
- every trial (button, parameters) of `iter_buttons`.

For each trial it presses the button and rejects the result in two cases:

- the total leaves the six-digit range;
- the total was already met, except for exempt buttons.

Otherwise it applies the active Lock and the portal, recurses, and reverts the press on every way out.

The model has seven modules:

- `Outcomes` holds the result types. A press is `Ok`, `Fail(CalcError)` for a trial the search skips, or `Crash(exc)`. `Crash` stands for a Python exception that nothing catches (ZeroDivisionError, ValueError, TypeError, IndexError, and a float power).
- `Decimal` converts between numbers and their numerals: `str(n)`, `int(s)`, the digit at a position, and the high and low parts of a number.
- `Text` holds string helpers: reversal, digit sum, sorting, digit inversion, and `str.replace`.
- `Keys` models the pure `press` of every stateless button, as a function of the total.
- `Panel` models the buttons as objects:
  - A `Button` class holds `_value`, the Convert/Cut pattern and the StoreV2 `_stack`. Its `Inc`, `SetValue`, `Push` and `Pop` methods change those fields.
  - Methods over a sequence of distinct buttons do `press`, `revert`, and Change's broadcast of `inc`.
  - Each method is proved against a function on the snapshot of button states (`PressPanel`, `RevertPanel`, `IncAll`).
- `Modifiers` models `Lock.get_lock`, `apply_lock` and `do_portal` (the last two as methods with loops).
- `Trials` models `iter_buttons` and the `itertools.product` enumeration of Store switches.
- `Search` models `solve`:
  - It defines a solution (`Solves`): each move picks the Store switches and a trial and names the total it leads to, and the moves reach the goal within the move bound.
  - The method `Solve` is proved against that definition. A found path is a solution. A failure means no solution exists, and then the buttons and `known_totals` are as they were on entry.

## Model

| member | source | states |
|---|---|---|
| Decimal.Sign | calculator-solver.py:14-21 | `sign` is +1 for every non-negative value, 0 included, and -1 for a negative one |
| Decimal.ParseIntStr | calculator-solver.py:106-107 | reading back the decimal numeral of any integer gives that integer |
| Text.RevRev | calculator-solver.py:154-156 | reversing a text twice gives it back |
| Text.DigitSumMod9 | calculator-solver.py:162-164 | the digit sum of n is congruent to n modulo 9 and never exceeds n |
| Text.Sorted | calculator-solver.py:262-267 | the sorted text is ascending and a permutation of the input |
| Text.InvertAllInvolutive | calculator-solver.py:244-252 | inverting every digit twice gives the text back |
| Text.ReplaceAbsent | calculator-solver.py:121-129 | replacing a pattern that does not occur changes nothing |
| Text.ReplaceSelf | calculator-solver.py:121-129 | replacing a pattern by itself changes nothing |
| Text.CutShortens | calculator-solver.py:273-278 | removing every occurrence of a pattern that occurs shortens the text by at least the pattern's length |
| Keys.DivPress | calculator-solver.py:81-85 | division raises ZeroDivisionError exactly for divisor 0; it fails with `aliquant` exactly when the divisor does not divide the total; otherwise the quotient times the divisor is the total |
| Panel.PowPress | calculator-solver.py:139-140 | a power never fails; it leaves the integers (modelled as a crash) exactly for a negative exponent |
| Keys.BackspaceDropsLastDigit | calculator-solver.py:94-96 | Backspace drops the last digit and keeps the sign; a single digit becomes 0 |
| Keys.NumAppendsDigits | calculator-solver.py:106-107 | a non-negative number's digits are appended to the total's, which keeps its sign; a negative number raises ValueError |
| Keys.ConvertPress | calculator-solver.py:121-129 | Convert fails with `pattern not found` exactly when the pattern is not in the total's numeral |
| Keys.ConvertToItself | calculator-solver.py:121-129 | converting a present pattern to itself returns the total |
| Keys.ReverseTwice | calculator-solver.py:154-156 | Reverse twice gives the total back when its last digit is not 0 |
| Keys.SumCastsOutNines | calculator-solver.py:162-164 | Sum keeps the sign and the residue modulo 9 of the magnitude, and never grows the magnitude |
| Keys.ShiftLeftThenRight | calculator-solver.py:170-182 | ShiftRight undoes ShiftLeft unless ShiftLeft brought a 0 to the front |
| Keys.ShiftRightThenLeft | calculator-solver.py:170-182 | ShiftLeft undoes ShiftRight when the last digit is not 0 |
| Keys.MirrorPalindrome | calculator-solver.py:188-195 | Mirror of a nonzero total is a palindrome twice as long that starts with the total's digits and keeps its sign |
| Keys.Inv10Involutive | calculator-solver.py:244-252 | Inv10 never fails and is its own inverse |
| Keys.SortDescKeepsDigits | calculator-solver.py:258-267 | descending Sort keeps exactly the digits of the total and orders them from largest to smallest |
| Keys.SortAscDropsZeros | calculator-solver.py:258-267 | ascending Sort gives the sorted digits without the zeros that come to the front (`int` drops them), or 0 when all digits are 0; the result is ascending, keeps every nonzero digit as often as the total has it, and keeps the sign of a nonzero result |
| Keys.DeleteRemovesDigit | calculator-solver.py:284-290 | Delete at pos removes exactly the digit pos places from the right of the numeral and keeps the sign |
| Keys.DeleteOn120 | calculator-solver.py:284-290 | Delete on 120 gives 12, 10 and 20 at positions 0, 1 and 2 |
| Keys.InsertSplicesNumeral | calculator-solver.py:300-307 | Insert of a non-negative number splices its numeral into the total's digits pos places from the right |
| Keys.RoundToNearest | calculator-solver.py:317-327 | Round at pos >= 1 gives a multiple of 10^pos within half of 10^pos of the magnitude (halves round up) and keeps the sign of a nonzero result |
| Keys.RoundAtZeroAddsOne | calculator-solver.py:323-326 | Round at position 0 moves the total one step away from zero, because half of 1 is 0 |
| Keys.DigitAddChangesOneDigit | calculator-solver.py:337-344 | DigitAdd changes only the digit at pos, to `abs(d + v) % 10` with a 0 counted as 10, and keeps the sign |
| Keys.DigitAddQuirk | calculator-solver.py:340-342 | DigitAdd of -3 on 1 gives 2, not 8, and DigitAdd of 5 on the 0 of 10 gives 15 |
| Keys.ReplaceSplicesNumeral | calculator-solver.py:427-430 | Replace with a non-negative number puts its numeral in place of the digit at pos and keeps the sign |
| Keys.ShiftPress | calculator-solver.py:369-380 | the action loop computes `RunActions`: `<` and `>` shift, spaces, commas and semicolons do nothing |
| Keys.RunActionsFailsIff | calculator-solver.py:375-378 | Shift fails with `unknown action` exactly when some action is not one of `<> ,;`, and never raises |
| Panel.IncrementedCrashes | calculator-solver.py:109-110 | `inc` raises exactly in two cases: TypeError when a button whose `inc` adds to its number (an empty Store, say) has none, and ValueError when a Cut's pattern is not a numeral |
| Panel.IncInverse | calculator-solver.py:45-46 | `inc(v)` then `inc(-v)` restores a button's state, Sub's negated `inc` included |
| Panel.RenumberInverse | calculator-solver.py:277-278 | Cut's pattern renumbered by v and then by -v is the pattern it was |
| Panel.IncAllPointwise | calculator-solver.py:205-207 | `inc` over all buttons succeeds exactly when it succeeds on each button, and then gives each button its own `inc` result |
| Panel.IncAllInverse | calculator-solver.py:211-213 | `inc(-v)` over all buttons undoes `inc(v)` over all buttons |
| Panel.ChangePress | calculator-solver.py:205-209 | Change returns the total unchanged, with every button incremented by its number; it raises exactly when some `inc` raises |
| Panel.ChangeReverted | calculator-solver.py:201-213 | Change's revert restores every button after its press |
| Panel.StorePress | calculator-solver.py:229-235 | Store fails exactly when it is empty or negative, and otherwise appends its value as Num does |
| Panel.StoreV2Press | calculator-solver.py:441-455 | a long press fails exactly when the total is already stored, and otherwise pushes the old value and stores the total; a plain press fails exactly when the store is empty or negative, and otherwise appends its value |
| Panel.LongPressReverted | calculator-solver.py:457-459 | a long-press revert restores the StoreV2 value and history |
| Panel.StoreV2Lifo | calculator-solver.py:436-459 | n long presses and then n reverts give back the StoreV2 state before them, in LIFO order |
| Panel.PushAllStack | calculator-solver.py:447-449 | each long press adds one entry to the history and keeps the entries below it; the value is the last total stored |
| Panel.RevertUndoesPress | calculator-solver.py:587-592 | a revert with the press's parameters gives back the button states before the press |
| Panel.RevertKeepsHolds | calculator-solver.py:211-213 | a revert keeps every button well formed |
| Panel.Initial | calculator-solver.py:66-68 | a new button holds its number, negated for Sub and DigitSub; a new StoreV2 is empty with history `[None]` |
| Panel.InitialHolds | calculator-solver.py:66-68 | a button built from a number, with a Cut pattern that is an integer's numeral, is well formed, as `Solve` requires of every button |
| Panel.Button.constructor | calculator-solver.py:436-438 | the new button's state is `Initial` of its kind and number |
| Panel.Button.Inc | calculator-solver.py:45-46 | the button's new state is `Incremented` of the old one; on an exception it is unchanged |
| Panel.Button.SetValue | calculator-solver.py:223-224 | `store` replaces the value and nothing else |
| Panel.Button.Push | calculator-solver.py:447-449 | a long press pushes the old value and stores the total |
| Panel.Button.Pop | calculator-solver.py:457-459 | the revert pops the history into the value, or raises IndexError on an empty history and leaves the state as it was |
| Panel.IncEach | calculator-solver.py:206-207 | the loop over the buttons leaves the states `IncAll` gives, or raises the exception `IncAll` raises |
| Panel.PressButton | calculator-solver.py:558 | the press returns what `PressPanel` gives and leaves the buttons in its states; a failed press changes nothing |
| Panel.RevertButton | calculator-solver.py:592 | the revert leaves the buttons in the states `RevertPanel` gives, or raises its exception |
| Modifiers.GetLock | calculator-solver.py:472-477 | a second lock fails with `already locked`; otherwise the lock holds the digit of the magnitude at pos |
| Modifiers.ApplyLock | calculator-solver.py:496-502 | the locked total has the lock's digit at pos, every other digit of the old total, and its sign |
| Modifiers.PortalFold | calculator-solver.py:483-493 | the portal leaves at most `left` digits, never grows the magnitude, and keeps a positive number positive |
| Modifiers.DoPortal | calculator-solver.py:483-493 | the folding loop ends with the sign of the total times `PortalFold` of its magnitude |
| Modifiers.PortalIdempotent | calculator-solver.py:488-491 | a second portal changes nothing |
| Modifiers.PortalOn321 | calculator-solver.py:483-493 | with left 2 and right 0, 321 becomes 24 |
| Trials.TrialCounts | calculator-solver.py:505-523 | Delete, DigitAdd, DigitSub, Replace and Lock get positions 0..len-1; Insert gets 0..len; Round gets 1..len-1; StoreV2 gets a long press and then a plain press; Shift gets one trial per action group; every other kind gets one plain press |
| Trials.TrialsFit | calculator-solver.py:505-523 | every trial passes the parameters its button's `press` takes |
| Trials.IterButtonsMembers | calculator-solver.py:505-523 | a trial is enumerated exactly when it is one of its button's trials |
| Trials.IterButtonsOrdered | calculator-solver.py:506 | trials come button by button in list order |
| Trials.IterButtonsFit | calculator-solver.py:505-523 | every enumerated trial names a button of the list and fits its `press` |
| Trials.CombosCount | calculator-solver.py:543 | there are 2^n Store choices |
| Trials.CombosLength | calculator-solver.py:543 | every choice sets each of the n switches |
| Trials.CombosCover | calculator-solver.py:543 | every on/off assignment is among the choices |
| Search.SwitchedOver | calculator-solver.py:545-549 | setting every Store button overwrites whatever an earlier setting left |
| Search.SwitchedRestores | calculator-solver.py:594-596 | storing the previous values back gives the entry states |
| Search.SwitchedHolds | calculator-solver.py:545-549 | setting Store values keeps every button well formed |
| Search.NewLock | calculator-solver.py:553-556 | only a Lock press hands on a lock, which holds a digit; Lock fails while a lock is active |
| Search.AttemptGuards | calculator-solver.py:562-577 | a total passed to the recursion came from a press within ±999999 before the lock and portal acted; it is not among the known totals unless the button is Change, Lock or a StoreV2 long press; only a Lock press hands on a lock |
| Search.SolutionShape | calculator-solver.py:526-532 | a solution has at most `moves` moves and ends on the goal |
| Search.NoneFromCombos | calculator-solver.py:594-598 | when no Store choice yields a solution, there is none |
| Search.SetStores | calculator-solver.py:545-549 | the Store buttons hold the given values and the other buttons are unchanged |
| Search.Land | calculator-solver.py:566-570 | the total after the active lock and then the portal is `Landed` |
| Search.PressTrial | calculator-solver.py:553-560 | the lock and the press of a trial agree with `NewLock` and `PressPanel`; a failed trial leaves the buttons as they were |
| Search.MakeAttempt | calculator-solver.py:551-577 | a trial that goes through agrees with `Attempt` and can be reverted to the states before it; a rejected trial leaves the buttons as they were |
| Search.TryTrial | calculator-solver.py:551-592 | a found path starts with this trial and leads on to a solution; a failed trial cannot lead to one and the buttons and known totals are as they were |
| Search.Descend | calculator-solver.py:579-580 | the recursive call's solution, or the fact that there is none, from the landed total with one move fewer |
| Search.Ascend | calculator-solver.py:582-592 | on success, the path is this move followed by the sub-solution |
| Search.Unwind | calculator-solver.py:587-592 | on failure, the revert gives back the states before the press |
| Search.Arrange | calculator-solver.py:545-549 | after the switch loop, the Store buttons hold the values the switches choose |
| Search.TryCombo | calculator-solver.py:551-592 | a found path's first move uses these switches and is legal; a failure means no trial leads on under these switches |
| Search.TryCombos | calculator-solver.py:543-592 | a found path's first move is legal; a failure means no solution exists from this total |
| Search.Restore | calculator-solver.py:594-596 | the Store buttons get their entry values back, so every button is as on entry |
| Search.Expand | calculator-solver.py:534-598 | the search below a non-goal total either finds a solution, whose visited totals are added to the known totals, or proves there is none; a failure leaves the buttons and known totals as on entry |
| Search.Solve | calculator-solver.py:526-598 | a found path is a solution within `moves` moves, and the known totals keep the totals on it; a failure means no solution exists, and the buttons and known totals are as on entry |
| Search.Run | calculator-solver.py:526-537 | the top-level call with no known totals and no lock returns a solution or proves there is none |
| Search.Trail.constructor | calculator-solver.py:534 | the known totals start empty |

## Left out

- The command line, `main`, `named_button`, `translate_password`, `_test_shift`, every `print` and every `__str__`/`__repr__` label. They only produce inputs or output text.
- `test.py` is not part of this model. It loads YAML fixtures that are not available, so it has no logic to model.
- `Shift.iter_action_groups` is a parameter of the game (`Game.groups`: a function from the total to its action strings). The model does not follow its enumeration, which depends on Python negative indexing and generator laziness. Only `Shift.press` over a given action string is modelled.
- Panel.PowPress: `total ** e` with a negative exponent gives a Python float. The model treats that as an uncaught outcome (`NonInteger`) instead of following floating-point values. Non-negative exponents are the plain integer power.
- Search.Expand: after a found solution the buttons are stated only as well formed and the known totals keep the solution's totals, as for `Search.Solve` on the next line; only a failure restores both. After an uncaught exception (`Aborted`) nothing is promised about either.
- Search.Solve: after a found solution the button states are stated only as well formed. The source gives the Store buttons their entry values back before the `finally` revert of the winning press. After a winning Change press, the Stores therefore end shifted by minus Change's number. "Every Store is restored on every exit" holds only on failure, and the contract states it only there.
- Search.Solve: after an uncaught exception (`Aborted`), nothing is promised about the buttons or the known totals. The exception ends the run.
- Search.Solve requires the buttons to be distinct objects (`Distinct`). The source's list could hold one object twice; its aliasing is not modelled.
- Keys.ConvertPress: Convert's replacement text is taken to be made of digits. Python's `int` also reads a text with whitespace around the digits, single underscores between them or non-ASCII digits (Convert from 3 to `_` on 132 gives `1_2`, which is 12). The model reads such a text as a ValueError and so ends the run where the program goes on.
- Python's `str.replace` replaces every occurrence, so Convert and Cut replace them all. The model follows the code.
- `sign(0)` is +1, as the code has it.
- Portals are modelled only when the exit lies right of the entry (`right < left`). For other portals the folding loop may not end (or, for left 0, `int('')` raises), and the model does not cover them.
- Cut patterns must be numerals of their own value (`NumeralPattern`). The program passes a Cut's text from the command line unchanged, so a pattern such as "05" or "+5" is possible. Such Cut buttons are outside the model. The program's own `inc` and revert do not restore them: "05" becomes "6" after `inc(1)` and "5" after `inc(-1)`.
- Exceptions and `finally` are modelled as result values (`Outcome`, `Verdict`) plus an explicit revert step. Python's exception mechanics as such are not modelled.

# Math Chompers in Dafny

Math Chompers is a browser game. The page shows a 5×5 grid of numbers or expressions. The player moves a cursor (the "muncher") over the grid and eats the cells that satisfy the current rule:

- multiples of the rule number;
- factors of the rule number;
- primes;
- expressions equal to the rule number;
- expressions not equal to it.

The repository holds two versions of the page, `src/pages/index.tsx` and `math-chompers/src/pages/index.tsx`. Both contain the same `generateGrid`, `generateEquation` and `isCorrect`, identical apart from TypeScript type annotations (`src/pages/index.tsx` declares `GridValue` types where the other copy has none or `any`). Each has its own `Home` component, whose event handlers change the game state.

The project has three modules:

- `Core` (core.dfy) holds the parts both pages share:
  - the cell values and their exact evaluation;
  - JavaScript's `Math.round` and `%`;
  - the grid generator and the rejection loop that builds expressions;
  - the correctness evaluator with its trial-division loop;
  - the cursor rule of the arrow keys;
  - the rule-number pick of a mode change.

  The shared functions are modelled once. The citations below point at `src/pages/index.tsx`; the copy in `math-chompers/src/pages/index.tsx` is at lines 16-74.
- `Page` (page.dfy) is the `Home` class of `src/pages/index.tsx`. It has arrow keys, Enter, touch, and a step sound on every move.
- `ChompersPage` (chompers_page.dfy) is the `Home` class of `math-chompers/src/pages/index.tsx`. It has only arrow keys and Enter, and no step sound.

How the model is built:

- Expressions are a datatype `Expr(a, op, b)` with operands in 1..12. `Eval` evaluates them exactly over `real`, which stands in for `eval`.
- `Round` is `Math.round` (floor of x + 1/2). `Rounded` computes the same value in integer arithmetic: a quotient a / b rounds to (2a + b) div 2b.
- JavaScript's `x % d === 0` becomes `ModIsZero`: x / d is an integer. For d = 0 it is false, because JavaScript gives NaN.
- `Math.random()` is never called. Each generator takes the sequence of values it would have drawn, each a real in [0, 1). From each value it derives its integer exactly as the page does, `Math.floor(r * k + lo)`. The ranges of those integers are therefore proved, not assumed.
- The session classes do not draw anything themselves. A handler that needs a new grid receives the grid that `generateGrid` returns, and its precondition is the generator's postcondition. A handler that needs a rule number receives the draw it is picked from.

Three behaviours of the code that a reader might not expect are kept as written:

- A factors cell of 0 gives NaN, so the verdict is false. There is no error.
- The rejection loop has no retry cap.
- An equality-mode cell is accepted on its *rounded* value, so it does not always evaluate to the rule number. `EqualityCellMayBeRejected` shows this with "7 / 2" for the target 4.

## Model

| member | source | states |
|---|---|---|
| Core.ScaledFloor | src/pages/index.tsx:43-45 | `Math.floor(r * k + lo)` of a draw r in [0,1) is one of the k integers lo .. lo+k-1 (for k <= 0, one of lo+k .. lo); this gives the ranges [1,50], [1,ruleNumber], [1,12] and the operator index in [0,3] |
| Core.OpAt | src/pages/index.tsx:41-45 | `ops[i]` for an index in [0,3] is the operator whose position in `ops` is i, so the four indices pick the four different operators |
| Core.AttemptReaches | src/pages/index.tsx:43-45 | every expression with operands in [1,12] and any of the four operators is what one iteration builds from some three draws in [0,1), so the loop can produce every candidate |
| Core.Eval | src/pages/index.tsx:48 | `eval` of `"a op b"` without rounding: an integer in [-11, 144] for +, - and *, and for / the positive exact quotient whose product with b is a |
| Core.ExpressionValueInteger | src/pages/index.tsx:59 | `eval` of an expression cell is an integer exactly when the operator is not / or the divisor divides the dividend, which is what the `%` tests and the primes loop then see |
| Core.Accepts | src/pages/index.tsx:48-49 | a candidate is accepted exactly when `Math.round` of its exact value equals the target for an equality, or differs from it for an inequality |
| Core.Rounded | src/pages/index.tsx:48 | the integer formula (2a+b) div 2b for a quotient, and the exact value for +, -, *, is `Math.round` of the exact value of the expression |
| Core.ModIsZeroOfIntegers | src/pages/index.tsx:62 | on integers, `n % d === 0` holds exactly when d is non-zero and divides n |
| Core.GenerateEquation | src/pages/index.tsx:40-56 | the expression returned is built from a drawn triple, with operands in [1,12] and one of the four operators; its rounded value equals the target iff `isEquality`; every earlier attempt was rejected; None only when the supplied draws ran out, after rejecting every full attempt |
| Core.GenerateGrid | src/pages/index.tsx:20-38 | a returned grid has exactly 25 cells, each of them fitting the mode: multiples, primes and unknown modes give integers in [1,50], drawn one per cell from the first 25 draws; factors gives `ruleNumber` or an integer in [1, ruleNumber]; equality and inequality give accepted expressions; 25 draws always suffice for multiples, primes and unknown modes, and 50 for factors; equality and inequality take three draws per attempt and have no such bound |
| Core.IsCorrect | src/pages/index.tsx:58-78 | the verdict equals `Correct`: multiples is `num % ruleNumber === 0`, factors is `ruleNumber % num === 0`, equality and inequality compare the exact value, an unknown mode gives false, and primes is `PrimeValue`: at least 2 and prime (or not an integer) |
| Core.PrimesVerdict | src/pages/index.tsx:65-70 | the trial-division loop returns true exactly for a value that is at least 2 and is prime or not an integer; 0, 1 and every composite give false |
| Core.TrialDivisionSuffices | src/pages/index.tsx:65-70 | when no i from 2 with i*i <= n divides n, n has no divisor in [2, n), so stopping the loop at the square root decides primality |
| Core.NumberCellVerdicts | src/pages/index.tsx:61-70 | on a number cell, multiples is `ruleNumber != 0 && n % ruleNumber == 0`, factors is `n != 0 && ruleNumber % n == 0`, and primes is "n is prime" |
| Core.PrimeVerdictExamples | src/pages/index.tsx:65-70 | in primes mode 0 and 1 are rejected, 2 is accepted and 4 is rejected |
| Core.EqualityInequalityComplementary | src/pages/index.tsx:71-74 | equality and inequality give opposite verdicts on every cell |
| Core.FactorsCells | src/pages/index.tsx:63-64 | with a positive rule number a generated factors cell lies in [1, ruleNumber], so it is never 0 and `ruleNumber % num` is never NaN; a cell equal to the rule number is judged correct |
| Core.InequalityCellsCorrect | src/pages/index.tsx:71-74 | every expression the generator accepts in inequality mode is judged correct |
| Core.EqualityCellMayBeRejected | src/pages/index.tsx:43-49 | the draws 0.5, 0.1, 0.75 make an attempt build "7 / 2", which the generator accepts for the target 4 (it rounds to 4), so `generateEquation(4, true)` can return it; yet it is judged incorrect (it is 3.5) |
| Core.Step | src/pages/index.tsx:107-112 | an arrow key moves the cursor to the neighbouring cell in its direction: the same column one row up or down, or the same row one column left or right; where there is no neighbour the cursor stays; other keys leave it; the cursor stays in [0,24] |
| Core.RuleNumberFor | src/pages/index.tsx:134-137 | the rule number picked from a draw is in [2,9] for multiples, [4,13] for factors, [1,20] for equality and inequality, and 0 for primes |
| Page.Home.constructor | src/pages/index.tsx:81-92 | the mounted page has the cursor at 12, score 0, multiples with rule number 2, and a grid that fits them |
| Page.Home.MoveTo | src/pages/index.tsx:100-103 | the cursor goes to the new position, a step sound is signalled, and nothing else changes |
| Page.Home.Select | src/pages/index.tsx:113-126 | on a correct cell only that cell is replaced, by the first cell of a generated grid, and the score rises by 1; otherwise the grid is unchanged and the score falls by 1; in inequality mode the score always rises; the state stays valid |
| Page.Home.HandleKey | src/pages/index.tsx:106-128 | arrow keys move the cursor as `Step` says, with grid and score unchanged and a step sound only when the cursor moved; Enter selects the cursor's cell as `Select` says |
| Page.Home.HandleTouch | src/pages/index.tsx:145-163 | touching the cursor's cell selects it; touching another cell moves the cursor there with grid and score unchanged |
| Page.Home.ChangeMode | src/pages/index.tsx:133-143 | the mode is set, the rule number comes from the mode's range, the score becomes 0 and the cursor 12; the grid is the one changeMode generated, or the one the effect on lines 89-92 generates when mode or rule number changed |
| ChompersPage.Home.constructor | math-chompers/src/pages/index.tsx:77-87 | the mounted page has the cursor at 12, score 0, multiples with rule number 2, and a grid that fits them |
| ChompersPage.Home.HandleKey | math-chompers/src/pages/index.tsx:90-112 | arrow keys move the cursor as `Step` says, without a sound; Enter on a correct cell replaces only that cell and adds 1; on an incorrect cell the grid is unchanged and 1 is subtracted; in inequality mode Enter always scores |
| ChompersPage.Home.ChangeMode | math-chompers/src/pages/index.tsx:117-127 | the mode is set, the rule number comes from the mode's range, the grid is the one generated for them, the score becomes 0 and the cursor 12 |

## Left out

- Rendering, `framer-motion` animation and Tailwind classes: these are presentation only.
- Audio. The model does not create or play the `Audio` objects, and it leaves out `playStepSound`'s rotation through three step sounds. The handlers only return which sound the page plays (`Feedback`).
- The 150 ms `setTimeout` that resets the flash, and the `flash` flag itself: these are cosmetic timing.
- Browser and React runtime:
  - the `keydown` listener registration;
  - React's batching of `setState`;
  - the page before its first effect has run, when the grid is still empty.

  Each handler is one atomic step over the state before the event. The constructors model the page after the mount effect.
- `Math.random()` and IEEE floating point. A draw is an exact real in [0,1). `eval` of `"a op b"` and `Math.round` are exact rational arithmetic. JavaScript's truncating `%` is modelled through the test `% ... === 0` in `isCorrect`. The cursor's column `muncherPos % GRID_SIZE` is written with Dafny's Euclidean `%`; the two agree because the cursor is never negative. Exact arithmetic also differs from IEEE `%` for a factors cell holding an expression with no exact binary value: `isCorrect('factors', "1 / 3", 6)` is true here but false in the browser; no session reaches it, because a factors grid holds only number cells.
- `Math.sqrt`: the loop bound `i <= Math.sqrt(num)` is modelled as `i * i <= num`.
- The `catch` branch of `generateEquation`. Evaluating a drawn expression cannot throw, because `` `${a} ${op} ${b}` `` is always a well-formed arithmetic expression.
- Core.GenerateEquation: the source loop never gives up. The model stops with None when fewer than three supplied draws remain, so it does not state that the loop terminates.
- Core.GenerateGrid: for factors, equality and inequality, the contract says that every cell fits the mode. It does not say which draws produce which cell.
- Page.Home.Select, Page.Home.HandleKey, Page.Home.HandleTouch and ChompersPage.Home.HandleKey take the grid `generateGrid(mode, ruleNumber)` returns as an argument instead of drawing it, and receive it even when no cell is eaten.
- Page.Home.ChangeMode and ChompersPage.Home.ChangeMode likewise take the draw for the rule number and the generated grids as arguments.
- The score is an unbounded integer. JavaScript numbers lose precision beyond 2^53, which the model does not capture.

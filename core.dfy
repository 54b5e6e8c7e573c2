/** The arithmetic core shared, line for line, by both pages of Math Chompers:
    the cell values, the exact evaluation of a cell, JavaScript's rounding,
    the grid generator with its rejection loop, the correctness evaluator,
    the cursor rule of the arrow keys and the rule-number pick of a mode change.

    Math.random() is not called: every generator takes the sequence of values
    it would have drawn, each a real in [0, 1), and derives its integers from
    them exactly as the page does (Math.floor(r * k + lo)). */
module Core {

  datatype Option<T> = None | Some(value: T)

  /** The side of the square grid and the number of its cells. */
  const GridSize: int := 5
  const CellCount: int := 25

  /** A `mode` string other than the five game modes. */
  type UnknownModeName = s: string | s !in {"multiples", "factors", "primes", "equality", "inequality"} witness ""

  /** The `mode` string; any other string than the five game modes is `Other`. */
  datatype Mode = Multiples | Factors | Primes | Equality | Inequality | Other(name: UnknownModeName)

  /** The five modes a player can switch to. */
  type GameMode = m: Mode | !m.Other? witness Multiples

  /** The operators of `ops`, in the order of that array. */
  datatype Op = Add | Sub | Mul | Div

  /** An operand the expression generator can draw. */
  type Operand = x: int | 1 <= x <= 12 witness 1

  /** The expression text `${a} ${op} ${b}`. */
  datatype Expr = Expr(a: Operand, op: Op, b: Operand)

  /** A grid value: a number, or an expression string. */
  datatype Cell = Num(n: int) | Expression(e: Expr)

  /** An `e.key` other than the four arrows and Enter. */
  type OtherKeyName = s: string | s !in {"ArrowUp", "ArrowDown", "ArrowLeft", "ArrowRight", "Enter"} witness ""

  /** `e.key` of a keydown event. */
  datatype Key = ArrowUp | ArrowDown | ArrowLeft | ArrowRight | Enter | OtherKey(name: OtherKeyName)

  /** The sound a page plays in answer to an event: a step, a munch, an error, or none. */
  datatype Feedback = StepSound | MunchSound | ErrorSound | Silent

  // ---------------------------------------------------------------------------
  // Numbers

  predicate IsInteger(x: real) {
    x.Floor as real == x
  }

  /** JavaScript's `x % d === 0`: the remainder of a truncating division is zero
      exactly when x / d is an integer, and `x % 0` is NaN, never zero. */
  predicate ModIsZero(x: real, d: real) {
    d != 0.0 && IsInteger(x / d)
  }

  /** Math.round: the nearest integer, halves rounded up. */
  function Round(x: real): int {
    (x + 0.5).Floor
  }

  /** Trial division over every candidate divisor: the reference notion of a prime. */
  predicate IsPrime(n: int) {
    n >= 2 && forall d :: 2 <= d < n ==> n % d != 0
  }

  lemma FloorOfQuotient(m: int, k: int)
    requires k > 0
    ensures (m as real / k as real).Floor == m / k
  {
    var q, r := m / k, m % k;
    assert m == q * k + r && 0 <= r < k;
    assert m as real / k as real == q as real + r as real / k as real;
    assert 0.0 <= r as real / k as real < 1.0;
  }

  /** For integers, `n % d === 0` is divisibility, and false for d == 0. */
  lemma ModIsZeroOfIntegers(n: int, d: int)
    ensures ModIsZero(n as real, d as real) <==> d != 0 && n % d == 0
  {
    if d != 0 {
      var q := n as real / d as real;
      if n % d == 0 {
        assert n == (n / d) * d;
        assert q == (n / d) as real;
      }
      if IsInteger(q) {
        assert n as real == q * d as real;
        assert n == q.Floor * d;
        ModOfMultiple(q.Floor, d);
      }
    }
  }

  lemma MulNonNegative(x: int, y: int)
    requires x >= 0 && y >= 0
    ensures x * y >= 0
  {
  }

  lemma MulMonotone(x: int, y: int, x': int, y': int)
    requires 0 <= x <= x' && 0 <= y <= y'
    ensures x * y <= x' * y'
  {
  }

  lemma ModOfMultiple(k: int, d: int)
    requires d != 0
    ensures (k * d) % d == 0
  {
    var m := k * d;
    var q, r := m / d, m % d;
    var t := k - q;
    assert t * d == r by {
      assert m == q * d + r;
      assert k * d - q * d == (k - q) * d;
    }
    var ad := if d > 0 then d else -d;
    if t > 0 {
      MulNonNegative(t - 1, ad);
      assert false;
    } else if t < 0 {
      MulNonNegative(-t - 1, ad);
      assert false;
    }
  }

  lemma ZeroProduct(u: real, v: real)
    requires u * v == 0.0 && v != 0.0
    ensures u == 0.0
  {
  }

  lemma HalfAboveQuotient(a: int, b: int)
    requires b >= 1
    ensures a as real / b as real + 0.5 == (2 * a + b) as real / (2 * b) as real
  {
    var A, B := a as real, b as real;
    var x, y := (2.0 * A + B) / (2.0 * B), A / B;
    assert x * (2.0 * B) == 2.0 * A + B;
    assert y * B == A;
    assert (y + 0.5) * (2.0 * B) == 2.0 * A + B;
    ZeroProduct(x - (y + 0.5), 2.0 * B);
    assert (2 * a + b) as real == 2.0 * A + B && (2 * b) as real == 2.0 * B;
  }

  /** `x % d === 0` for an integer divisor d, as the primes loop tests it. */
  predicate DivisibleBy(x: real, d: int) {
    ModIsZero(x, d as real)
  }

  /** Only an integer has an integer divisor with zero remainder. */
  lemma ModIsZeroOnlyOfIntegers(x: real, d: int)
    requires ModIsZero(x, d as real)
    ensures IsInteger(x)
  {
    var q := (x / d as real).Floor;
    assert x == q as real * d as real;
    assert x == (q * d) as real;
  }

  // ---------------------------------------------------------------------------
  // Drawing from Math.random()

  predicate IsDraw(r: real) {
    0.0 <= r < 1.0
  }

  predicate AllDraws(rs: seq<real>) {
    forall k :: 0 <= k < |rs| ==> IsDraw(rs[k])
  }

  /** `Math.floor(r * k + lo)` for a draw r: one of the k integers from lo on
      (for k <= 0, one of lo + k .. lo). */
  function ScaledFloor(r: real, k: int, lo: int): (v: int)
    requires IsDraw(r)
    ensures k >= 1 ==> lo <= v <= lo + k - 1
    ensures k <= 0 ==> lo + k <= v <= lo
  {
    ScaledDrawBounds(r, k as real);
    (r * k as real + lo as real).Floor
  }

  /** A draw scaled by k lies in [0, k) for positive k and in [k, 0] otherwise. */
  lemma ScaledDrawBounds(r: real, k: real)
    requires IsDraw(r)
    ensures k >= 1.0 ==> 0.0 <= r * k < k
    ensures k <= 0.0 ==> k <= r * k <= 0.0
  {
    if k >= 1.0 {
      assert (1.0 - r) * k > 0.0;
    } else if k < 0.0 {
      assert (1.0 - r) * (-k) >= 0.0;
      assert r * (-k) >= 0.0;
    }
  }

  // ---------------------------------------------------------------------------
  // Expressions

  /** `ops[i]` for ops = ['+', '-', '*', '/']: the operator back at index i, so
      each index picks a different operator. */
  function OpAt(i: int): (op: Op)
    requires 0 <= i < 4
    ensures OpIndex(op) == i
  {
    if i == 0 then Add else if i == 1 then Sub else if i == 2 then Mul else Div
  }

  /** The position of an operator in `ops`. */
  function OpIndex(op: Op): (i: int)
    ensures 0 <= i < 4
  {
    match op
    case Add => 0
    case Sub => 1
    case Mul => 2
    case Div => 3
  }

  /** `eval` of an expression string, with no rounding: an integer for +, - and *,
      and for / the exact positive quotient, the number that times b gives a. */
  function Eval(e: Expr): (x: real)
    ensures !e.op.Div? ==> IsInteger(x) && -11.0 <= x <= 144.0
    ensures e.op.Div? ==> x > 0.0 && x * e.b as real == e.a as real
  {
    match e.op
    case Add => (e.a + e.b) as real
    case Sub => (e.a - e.b) as real
    case Mul =>
      MulMonotone(e.a, e.b, 12, 12);
      (e.a * e.b) as real
    case Div =>
      QuotientTimesDivisor(e.a as real, e.b as real);
      e.a as real / e.b as real
  }

  lemma QuotientTimesDivisor(a: real, b: real)
    requires a > 0.0 && b > 0.0
    ensures a / b > 0.0 && (a / b) * b == a
  {
  }

  /** Every operator of `ops` is drawn by its own index. */
  lemma {:induction false} EveryOperatorDrawable(op: Op)
    ensures OpAt(OpIndex(op)) == op
  {
    match op
    case Add =>
    case Sub =>
    case Mul =>
    case Div =>
  }

  /** The value of a grid cell as `isCorrect` sees it
      (`typeof value === 'number' ? value : eval(value)`): a number cell is that
      integer, an expression cell its exact value. */
  function Value(c: Cell): real
  {
    match c
    case Num(n) => n as real
    case Expression(e) => Eval(e)
  }

  /** `eval` of an expression cell gives an integer exactly when it is not a
      quotient or the divisor divides the dividend; this decides the multiples,
      factors and primes verdicts on such a cell. */
  lemma ExpressionValueInteger(c: Cell)
    requires c.Expression?
    ensures IsInteger(Value(c)) <==> !c.e.op.Div? || (c.e.a as int) % (c.e.b as int) == 0
  {
    if c.e.op.Div? {
      var a: int, b: int := c.e.a, c.e.b;
      ModIsZeroOfIntegers(a, b);
      assert Value(c) == a as real / b as real;
    }
  }

  /** `Math.round(eval(expr))` in integer arithmetic: a quotient a / b of positive
      operands rounds to (2a + b) div 2b, the other operators give integers. */
  function Rounded(e: Expr): (r: int)
    ensures r == Round(Eval(e))
  {
    match e.op
    case Add => e.a + e.b
    case Sub => e.a - e.b
    case Mul => e.a * e.b
    case Div =>
      var a, b := e.a, e.b;
      HalfAboveQuotient(a, b);
      FloorOfQuotient(2 * a + b, 2 * b);
      (2 * a + b) / (2 * b)
  }

  /** The acceptance test of `generateEquation`: the value Math.round gives the exact
      value equals the target exactly when an equality is asked for. */
  predicate Accepts(target: int, isEquality: bool, e: Expr): (ok: bool)
    ensures ok <==> ((Round(Eval(e)) == target) == isEquality)
  {
    (isEquality && Rounded(e) == target) || (!isEquality && Rounded(e) != target)
  }

  /** The k-th attempt of the rejection loop: draws 3k, 3k+1, 3k+2 give a, b and the operator. */
  function Attempt(rs: seq<real>, k: nat): Expr
    requires 3 * k + 3 <= |rs| && AllDraws(rs)
  {
    var a := ScaledFloor(rs[3 * k], 12, 1);
    var b := ScaledFloor(rs[3 * k + 1], 12, 1);
    Expr(a, OpAt(ScaledFloor(rs[3 * k + 2], 4, 0)), b)
  }

  /** Every expression can be drawn: three suitable draws make one attempt
      produce any given operands and operator. */
  lemma AttemptReaches(e: Expr)
    ensures AllDraws([(e.a - 1) as real / 12.0, (e.b - 1) as real / 12.0, OpIndex(e.op) as real / 4.0])
    ensures Attempt([(e.a - 1) as real / 12.0, (e.b - 1) as real / 12.0, OpIndex(e.op) as real / 4.0], 0) == e
  {
    var rs := [(e.a - 1) as real / 12.0, (e.b - 1) as real / 12.0, OpIndex(e.op) as real / 4.0];
    assert rs[0] * 12.0 + 1.0 == e.a as real;
    assert rs[1] * 12.0 + 1.0 == e.b as real;
    assert rs[2] * 4.0 == OpIndex(e.op) as real;
    EveryOperatorDrawable(e.op);
  }

  /** `generateEquation(target, isEquality)`: the first attempt whose rounded value
      equals (isEquality) or differs from (not isEquality) the target. The source
      retries forever; here the loop stops with None when fewer than three draws
      are left. `tries` is the number of attempts made. */
  method GenerateEquation(target: int, isEquality: bool, rs: seq<real>) returns (r: Option<Expr>, tries: nat)
    requires AllDraws(rs)
    ensures 3 * tries <= |rs|
    ensures r.Some? ==> tries >= 1 && r.value == Attempt(rs, tries - 1)
    ensures r.Some? ==> Accepts(target, isEquality, r.value)
    ensures r.Some? ==> forall k :: 0 <= k < tries - 1 ==> !Accepts(target, isEquality, Attempt(rs, k))
    ensures r.None? ==> tries == |rs| / 3
    ensures r.None? ==> forall k :: 0 <= k < tries ==> !Accepts(target, isEquality, Attempt(rs, k))
  {
    var k := 0;
    while 3 * k + 3 <= |rs|
      invariant 3 * k <= |rs|
      invariant forall j :: 0 <= j < k ==> !Accepts(target, isEquality, Attempt(rs, j))
    {
      var a := ScaledFloor(rs[3 * k], 12, 1);
      var b := ScaledFloor(rs[3 * k + 1], 12, 1);
      var op := OpAt(ScaledFloor(rs[3 * k + 2], 4, 0));
      var e := Expr(a, op, b);
      var result := Rounded(e);
      if (isEquality && result == target) || (!isEquality && result != target) {
        return Some(e), k + 1;
      }
      k := k + 1;
    }
    return None, k;
  }

  // ---------------------------------------------------------------------------
  // Grids

  /** The values `generateGrid(mode, ruleNumber)` can put in a cell. */
  predicate CellFits(mode: Mode, ruleNumber: int, c: Cell) {
    match mode
    case Factors =>
      c.Num? && (c.n == ruleNumber ||
                 (if ruleNumber >= 1 then 1 <= c.n <= ruleNumber else ruleNumber + 1 <= c.n <= 1))
    case Equality => c.Expression? && Accepts(ruleNumber, true, c.e)
    case Inequality => c.Expression? && Accepts(ruleNumber, false, c.e)
    case _ => c.Num? && 1 <= c.n <= 50
  }

  predicate GridFits(mode: Mode, ruleNumber: int, g: seq<Cell>) {
    |g| == CellCount && forall i :: 0 <= i < |g| ==> CellFits(mode, ruleNumber, g[i])
  }

  predicate UsesOneDrawPerCell(mode: Mode) {
    mode.Multiples? || mode.Primes? || mode.Other?
  }

  /** `generateGrid(mode, ruleNumber)`: 25 cells, each fitting the mode. The
      modes that draw one number per cell take the first 25 draws; None means the
      supplied draws ran out. */
  method GenerateGrid(mode: Mode, ruleNumber: int, rs: seq<real>) returns (r: Option<seq<Cell>>)
    requires AllDraws(rs)
    ensures r.Some? ==> GridFits(mode, ruleNumber, r.value)
    ensures UsesOneDrawPerCell(mode) ==> (r.Some? <==> |rs| >= CellCount)
    ensures UsesOneDrawPerCell(mode) && r.Some? ==>
              forall i :: 0 <= i < CellCount ==> r.value[i] == Num(ScaledFloor(rs[i], 50, 1))
    ensures mode.Factors? && |rs| >= 2 * CellCount ==> r.Some?
  {
    var grid: seq<Cell> := [];
    var pos: nat := 0;
    for i := 0 to GridSize * GridSize
      invariant |grid| == i && pos <= |rs|
      invariant forall j :: 0 <= j < i ==> CellFits(mode, ruleNumber, grid[j])
      invariant UsesOneDrawPerCell(mode) ==> pos == i
      invariant UsesOneDrawPerCell(mode) ==> forall j :: 0 <= j < i ==> grid[j] == Num(ScaledFloor(rs[j], 50, 1))
      invariant mode.Factors? ==> pos <= 2 * i
    {
      var value: Cell;
      if mode == Multiples {
        if pos == |rs| { return None; }
        value := Num(ScaledFloor(rs[pos], 50, 1));
        pos := pos + 1;
      } else if mode == Factors {
        if pos == |rs| { return None; }
        if rs[pos] < 0.5 {
          value := Num(ruleNumber);
          pos := pos + 1;
        } else {
          if pos + 1 == |rs| { return None; }
          value := Num(ScaledFloor(rs[pos + 1], ruleNumber, 1));
          pos := pos + 2;
        }
      } else if mode == Primes {
        if pos == |rs| { return None; }
        value := Num(ScaledFloor(rs[pos], 50, 1));
        pos := pos + 1;
      } else if mode == Equality || mode == Inequality {
        var e, tries := GenerateEquation(ruleNumber, mode == Equality, rs[pos..]);
        if e.None? { return None; }
        value := Expression(e.value);
        pos := pos + 3 * tries;
      } else {
        if pos == |rs| { return None; }
        value := Num(ScaledFloor(rs[pos], 50, 1));
        pos := pos + 1;
      }
      grid := grid + [value];
    }
    return Some(grid);
  }

  // ---------------------------------------------------------------------------
  // Judging a cell

  /** A value the primes test accepts: a prime, or a non-integer from 2 on, which
      no integer divides. */
  predicate PrimeValue(num: real) {
    num >= 2.0 && (!IsInteger(num) || IsPrime(num.Floor))
  }

  /** What `isCorrect(mode, value, ruleNumber)` answers, with primality stated by
      every candidate divisor rather than by trial division up to the square root. */
  predicate Correct(mode: Mode, c: Cell, ruleNumber: int) {
    var num := Value(c);
    match mode
    case Multiples => ModIsZero(num, ruleNumber as real)
    case Factors => ModIsZero(ruleNumber as real, num)
    case Primes => PrimeValue(num)
    case Equality => num == ruleNumber as real
    case Inequality => num != ruleNumber as real
    case Other(_) => false
  }

  /** If no i from 2 with i * i <= n divides n, nothing from 2 below n does:
      a divisor d has the cofactor n / d, and the smaller of the two is below i. */
  lemma {:induction false} TrialDivisionSuffices(n: int, i: int)
    requires n >= 2 && i >= 2 && i * i > n
    requires forall d :: 2 <= d < i ==> n % d != 0
    ensures IsPrime(n)
  {
    forall d | 2 <= d < n
      ensures n % d != 0
    {
      if n % d == 0 && d >= i {
        Cofactor(n, d, i);
        assert false;
      }
    }
  }

  /** A divisor d of n from i on, with i * i > n, has its cofactor n / d below i. */
  lemma Cofactor(n: int, d: int, i: int)
    requires 2 <= d < n && n % d == 0 && i >= 2 && i * i > n && d >= i
    ensures 2 <= n / d < i && n % (n / d) == 0
  {
    var q := n / d;
    assert n == q * d;
    if q < 2 {
      MulMonotone(q, d, 1, d);
      assert false;
    }
    if q >= i {
      MulMonotone(i, i, q, d);
      assert false;
    }
    ModOfMultiple(d, q);
    assert d * q == n;
  }

  /** The primes case of `isCorrect`: false below 2, false when some i from 2
      with i * i <= num leaves no remainder, true otherwise. */
  method PrimesVerdict(num: real) returns (b: bool)
    ensures b == PrimeValue(num)
  {
    if num < 2.0 {
      return false;
    }
    var i := 2;
    while (i * i) as real <= num
      invariant 2 <= i
      invariant forall d :: 2 <= d < i ==> !DivisibleBy(num, d)
      decreases num.Floor - i
    {
      if DivisibleBy(num, i) {
        DivisorFound(num, i);
        return false;
      }
      SquareBound(num, i);
      i := i + 1;
    }
    NoDivisorFound(num, i);
    return true;
  }

  lemma SquareBound(num: real, i: int)
    requires 2 <= i && (i * i) as real <= num
    ensures i < num.Floor
  {
    MulMonotone(2, i, i, i);
  }

  /** A divisor i from 2 with i * i <= num shows num is not prime. */
  lemma DivisorFound(num: real, i: int)
    requires 2 <= i && (i * i) as real <= num && DivisibleBy(num, i)
    ensures !PrimeValue(num)
  {
    ModIsZeroOnlyOfIntegers(num, i);
    ModIsZeroOfIntegers(num.Floor, i);
    SquareBound(num, i);
  }

  /** No divisor from 2 below i, with i * i > num >= 2, shows num is prime. */
  lemma NoDivisorFound(num: real, i: int)
    requires num >= 2.0 && 2 <= i && (i * i) as real > num
    requires forall d :: 2 <= d < i ==> !DivisibleBy(num, d)
    ensures PrimeValue(num)
  {
    if IsInteger(num) {
      var n := num.Floor;
      forall d | 2 <= d < i
        ensures n % d != 0
      {
        assert !DivisibleBy(num, d) && num == n as real;
        ModIsZeroOfIntegers(n, d);
      }
      TrialDivisionSuffices(n, i);
    }
  }

  /** `isCorrect(mode, value, ruleNumber)`. */
  method IsCorrect(mode: Mode, value: Cell, ruleNumber: int) returns (b: bool)
    ensures b == Correct(mode, value, ruleNumber)
  {
    var num := Value(value);
    match mode {
      case Multiples =>
        b := ModIsZero(num, ruleNumber as real);
      case Factors =>
        b := ModIsZero(ruleNumber as real, num);
      case Primes =>
        b := PrimesVerdict(num);
      case Equality =>
        b := num == ruleNumber as real;
      case Inequality =>
        b := num != ruleNumber as real;
      case Other(_) =>
        b := false;
    }
  }

  // ---------------------------------------------------------------------------
  // Properties of the evaluator and of generated cells

  /** On number cells the evaluator is the integer predicate of each mode: the
      divisibility tests are false where JavaScript's remainder would be NaN. */
  lemma NumberCellVerdicts(n: int, ruleNumber: int)
    ensures Correct(Multiples, Num(n), ruleNumber) <==> ruleNumber != 0 && n % ruleNumber == 0
    ensures Correct(Factors, Num(n), ruleNumber) <==> n != 0 && ruleNumber % n == 0
    ensures Correct(Primes, Num(n), ruleNumber) <==> IsPrime(n)
  {
    ModIsZeroOfIntegers(n, ruleNumber);
    ModIsZeroOfIntegers(ruleNumber, n);
    assert IsInteger(n as real);
  }

  /** The primes verdicts the game relies on: 0 and 1 are rejected, 2 is accepted, 4 is not. */
  lemma PrimeVerdictExamples(ruleNumber: int)
    ensures !Correct(Primes, Num(0), ruleNumber) && !Correct(Primes, Num(1), ruleNumber)
    ensures Correct(Primes, Num(2), ruleNumber) && !Correct(Primes, Num(4), ruleNumber)
  {
    NumberCellVerdicts(2, ruleNumber);
    NumberCellVerdicts(4, ruleNumber);
    assert 4 % 2 == 0;
  }

  /** Equality and inequality give opposite verdicts on every cell. */
  lemma EqualityInequalityComplementary(c: Cell, ruleNumber: int)
    ensures Correct(Equality, c, ruleNumber) <==> !Correct(Inequality, c, ruleNumber)
  {
  }

  /** With a positive rule number no factors cell is 0, so `ruleNumber % num` is
      never NaN, and a cell holding the rule number itself is always correct. */
  lemma FactorsCells(ruleNumber: int, c: Cell)
    requires ruleNumber >= 1 && CellFits(Factors, ruleNumber, c)
    ensures 1 <= c.n <= ruleNumber
    ensures c.n == ruleNumber ==> Correct(Factors, c, ruleNumber)
  {
    NumberCellVerdicts(c.n, ruleNumber);
  }

  /** Every inequality expression the generator accepts is judged correct: had its
      exact value been the integer target, its rounded value would have been too. */
  lemma InequalityCellsCorrect(ruleNumber: int, c: Cell)
    requires CellFits(Inequality, ruleNumber, c)
    ensures Correct(Inequality, c, ruleNumber)
  {
  }

  /** Equality mode has no such guarantee: "7 / 2" rounds to 4, so it is generated
      for the target 4, but it evaluates to 3.5 and is judged incorrect. */
  lemma EqualityCellMayBeRejected()
    ensures AllDraws([0.5, 0.1, 0.75]) && Attempt([0.5, 0.1, 0.75], 0) == Expr(7, Div, 2)
    ensures Accepts(4, true, Expr(7, Div, 2))
    ensures CellFits(Equality, 4, Expression(Expr(7, Div, 2)))
    ensures !Correct(Equality, Expression(Expr(7, Div, 2)), 4)
  {
    assert Rounded(Expr(7, Div, 2)) == 4;
  }

  // ---------------------------------------------------------------------------
  // Session rules shared by both pages

  function Row(pos: int): int { pos / GridSize }
  function Col(pos: int): int { pos % GridSize }

  /** The cursor after an arrow key: the neighbouring cell in the key's direction
      when the grid has one, otherwise the same cell; other keys leave it. */
  function Step(pos: int, key: Key): (p: int)
    requires 0 <= pos < CellCount
    ensures 0 <= p < CellCount
    ensures key.ArrowUp? ==> if Row(pos) > 0 then Row(p) == Row(pos) - 1 && Col(p) == Col(pos) else p == pos
    ensures key.ArrowDown? ==> if Row(pos) < GridSize - 1 then Row(p) == Row(pos) + 1 && Col(p) == Col(pos) else p == pos
    ensures key.ArrowLeft? ==> if Col(pos) > 0 then Row(p) == Row(pos) && Col(p) == Col(pos) - 1 else p == pos
    ensures key.ArrowRight? ==> if Col(pos) < GridSize - 1 then Row(p) == Row(pos) && Col(p) == Col(pos) + 1 else p == pos
    ensures !(key.ArrowUp? || key.ArrowDown? || key.ArrowLeft? || key.ArrowRight?) ==> p == pos
  {
    var row := pos / GridSize;
    var col := pos % GridSize;
    if key == ArrowUp && row > 0 then pos - GridSize
    else if key == ArrowDown && row < GridSize - 1 then pos + GridSize
    else if key == ArrowLeft && col > 0 then pos - 1
    else if key == ArrowRight && col < GridSize - 1 then pos + 1
    else pos
  }

  /** The rule numbers a mode can have. */
  predicate RuleInRange(mode: GameMode, ruleNumber: int) {
    match mode
    case Multiples => 2 <= ruleNumber <= 9
    case Factors => 4 <= ruleNumber <= 13
    case Equality => 1 <= ruleNumber <= 20
    case Inequality => 1 <= ruleNumber <= 20
    case Primes => ruleNumber == 0
  }

  /** The rule number `changeMode(newMode)` picks from the draw r. */
  function RuleNumberFor(newMode: GameMode, r: real): (n: int)
    requires IsDraw(r)
    ensures RuleInRange(newMode, n)
  {
    if newMode == Multiples then 2 + ScaledFloor(r, 8, 0)
    else if newMode == Factors then 4 + ScaledFloor(r, 10, 0)
    else if newMode == Equality || newMode == Inequality then ScaledFloor(r, 20, 1)
    else 0
  }
}

/**
 * Integer 2D vectors and the eight-direction rose. A Kotlin Int is a 32-bit two's-complement
 * integer: its arithmetic is the integer result wrapped into [-2^31, 2^31), written out here
 * as Wrap. A Long is handled through its 64-bit pattern, a natural number below 2^64, with
 * the bitwise operations of the Bits module.
 */
module Grid2D {
  import opened Wrappers
  import opened Bits

  /** A Kotlin Int. */
  type Int32 = x: int | -0x8000_0000 <= x < 0x8000_0000

  const MinInt: Int32 := -0x8000_0000

  /** 2^32, the period of Int arithmetic. */
  const Modulus: int := 0x1_0000_0000

  /** The Int an integer result wraps to. */
  function Wrap(v: int): (r: Int32)
    ensures -0x8000_0000 <= v < 0x8000_0000 ==> r == v
  {
    if -0x8000_0000 <= v < 0x8000_0000 then v
    else (v + 0x8000_0000) % Modulus - 0x8000_0000
  }

  /** Results that differ by a multiple of 2^32 wrap to the same Int. */
  lemma WrapShift(v: int, k: int)
    ensures Wrap(v + k * Modulus) == Wrap(v)
  {
    var a := v + 0x8000_0000;
    var q := a / Modulus;
    ModUnique(a + k * Modulus, Modulus, q + k, a % Modulus);
  }

  /** Wrapping an intermediate result does not change what a later sum wraps to. */
  lemma WrapInner(u: int, c: int)
    ensures Wrap(Wrap(u) + c) == Wrap(u + c)
  {
    var q := (u + 0x8000_0000) / Modulus;
    assert Wrap(u) == u - q * Modulus;
    WrapShift(u + c, -q);
  }

  /** ... nor what a later product wraps to. */
  lemma WrapInnerProduct(u: int, c: int)
    ensures Wrap(Wrap(u) * c) == Wrap(u * c)
  {
    var q := (u + 0x8000_0000) / Modulus;
    assert Wrap(u) == u - q * Modulus;
    assert (u - q * Modulus) * c == u * c + (-(q * c)) * Modulus;
    WrapShift(u * c, -(q * c));
  }

  /** Int +, -, * and unary minus. */
  function Add(a: Int32, b: Int32): Int32 { Wrap(a + b) }
  function Sub(a: Int32, b: Int32): Int32 { Wrap(a - b) }
  function Mul(a: Int32, b: Int32): Int32 { Wrap(a * b) }
  function Negate(a: Int32): Int32 { Wrap(-(a as int)) }

  /** kotlin.math.abs, which maps Int.MIN_VALUE to itself. */
  function Abs(a: Int32): Int32 {
    if a < 0 then Negate(a) else a
  }

  /** Int addition is commutative and associative, with 0 as unit and unary minus as inverse. */
  lemma WordGroup(a: Int32, b: Int32, c: Int32)
    ensures Add(a, b) == Add(b, a)
    ensures Add(Add(a, b), c) == Add(a, Add(b, c))
    ensures Add(a, 0) == a && Add(a, Negate(a)) == 0
    ensures Sub(a, b) == Add(a, Negate(b))
    ensures Sub(Add(a, b), b) == a
    ensures Negate(Negate(a)) == a
  {
    AddAssoc(a, b, c);
    AddInverse(a);
    SubAddsNegation(a, b);
    SubUndoesAdd(a, b);
    NegateTwice(a);
  }

  lemma AddAssoc(a: Int32, b: Int32, c: Int32)
    ensures Add(Add(a, b), c) == Add(a, Add(b, c))
  {
    calc {
      Add(Add(a, b), c);
      Wrap(Wrap(a + b) + c);
      { WrapInner(a + b, c); }
      Wrap((b + c) + a);
      { WrapInner(b + c, a); }
      Wrap(Wrap(b + c) + a);
      Add(a, Add(b, c));
    }
  }

  lemma AddInverse(a: Int32)
    ensures Add(a, Negate(a)) == 0
  {
    WrapInner(-(a as int), a);
    assert Add(a, Negate(a)) == Wrap(Wrap(-(a as int)) + a);
  }

  lemma SubAddsNegation(a: Int32, b: Int32)
    ensures Sub(a, b) == Add(a, Negate(b))
  {
    WrapInner(-(b as int), a);
    assert Add(a, Negate(b)) == Wrap(Wrap(-(b as int)) + a);
  }

  lemma SubUndoesAdd(a: Int32, b: Int32)
    ensures Sub(Add(a, b), b) == a
  {
    WrapInner(a + b, -(b as int));
  }

  lemma NegateTwice(a: Int32)
    ensures Negate(Negate(a)) == a
  {
    var n := Negate(a);
    WrapInnerProduct(-(a as int), -1);
    assert Negate(n) == Wrap((n as int) * -1);
  }

  /** Int multiplication distributes over addition, and multiplying by 0, 1, -1 or 2 is what it should be. */
  lemma WordTimes(a: Int32, b: Int32, s: Int32)
    ensures Mul(Add(a, b), s) == Add(Mul(a, s), Mul(b, s))
    ensures Mul(a, 0) == 0 && Mul(a, 1) == a && Mul(a, -1) == Negate(a) && Mul(a, 2) == Add(a, a)
  {
    WrapInnerProduct(a + b, s);
    WrapInner(a * s, Wrap(b * s));
    WrapInner(b * s, a * s);
    assert (a + b) * s == a * s + b * s;
  }

  // ---------------------------------------------------------------------------
  // Direction

  /** The rose, clockwise from north: N, NE, E, SE, S, SW, W, NW. */
  datatype Direction = N | NE | E | SE | S | SW | W | NW

  /** The turns relative to a direction. */
  datatype Relative = LeftFront | RightFront | Left | Right | LeftBack | RightBack | Back

  /** values()[k]: the direction with ordinal k. */
  function Value(k: nat): Direction
    requires k < 8
  {
    if k == 0 then N else if k == 1 then NE else if k == 2 then E else if k == 3 then SE
    else if k == 4 then S else if k == 5 then SW else if k == 6 then W else NW
  }

  /** ordinal: the position of a direction on the rose. */
  function Ordinal(d: Direction): (r: nat)
    ensures r < 8
  {
    match d
    case N => 0 case NE => 1 case E => 2 case SE => 3
    case S => 4 case SW => 5 case W => 6 case NW => 7
  }

  /** values() and ordinal are inverse to each other. */
  lemma ValueOrdinal(d: Direction, k: nat)
    ensures Value(Ordinal(d)) == d
    ensures k < 8 ==> Ordinal(Value(k)) == k
  {
  }

  /** deltaX and deltaY, by direction: north is +y, east is +x. */
  function DeltaX(d: Direction): Int32 {
    match d
    case N => 0 case NE => 1 case E => 1 case SE => 1
    case S => 0 case SW => -1 case W => -1 case NW => -1
  }

  function DeltaY(d: Direction): Int32 {
    match d
    case N => 1 case NE => 1 case E => 0 case SE => -1
    case S => -1 case SW => -1 case W => 0 case NW => 1
  }

  /** cwOffset: the clockwise turn, in eighths, for each relative direction. */
  function CwOffset(r: Relative): int {
    match r
    case LeftFront => -1 case RightFront => 1 case Left => -2 case Right => 2
    case LeftBack => -3 case RightBack => 3 case Back => 4
  }

  /** getRose: the direction at index floorMod(index, 8), 0 being N. */
  function GetRose(index: int): Direction {
    Value(index % 8)
  }

  /** The rose index of a direction leads back to it, and the rose repeats every eight steps. */
  lemma RoseOrdinal(d: Direction, index: int)
    ensures GetRose(Ordinal(d)) == d
    ensures Ordinal(GetRose(index)) == index % 8
    ensures GetRose(index + 8) == GetRose(index)
  {
    ValueOrdinal(d, index % 8);
    assert (index + 8) % 8 == index % 8;
  }

  /** cardinal: the ordinal is even. */
  predicate Cardinal(d: Direction) {
    Ordinal(d) % 2 == 0
  }

  /** diagonal: not cardinal. */
  predicate Diagonal(d: Direction) {
    !Cardinal(d)
  }

  /** get(relative): the direction turned clockwise by the offset of the relative direction. */
  function Get(d: Direction, r: Relative): Direction {
    GetRose(Ordinal(d) + CwOffset(r))
  }

  /** cardinals and diagonals: the even and the odd points of the rose. */
  lemma CardinalPoints(d: Direction)
    ensures Cardinal(d) <==> d in {N, E, S, W}
    ensures Diagonal(d) <==> d in {NE, SE, SW, NW}
  {
  }

  // ---------------------------------------------------------------------------
  // Vec2Int

  datatype Vec2Int = Vec2Int(x: Int32, y: Int32)

  const Zero := Vec2Int(0, 0)

  /** unaryMinus */
  function Neg(v: Vec2Int): Vec2Int {
    Vec2Int(Negate(v.x), Negate(v.y))
  }

  /** plus */
  function Plus(a: Vec2Int, b: Vec2Int): Vec2Int {
    Vec2Int(Add(a.x, b.x), Add(a.y, b.y))
  }

  /** minus */
  function Minus(a: Vec2Int, b: Vec2Int): Vec2Int {
    Vec2Int(Sub(a.x, b.x), Sub(a.y, b.y))
  }

  /** times(scalar), and Int.times(vector), which is the same product. */
  function Times(v: Vec2Int, scalar: Int32): Vec2Int {
    Vec2Int(Mul(v.x, scalar), Mul(v.y, scalar))
  }

  /** The integer quotient rounded toward zero. */
  function TruncDiv(a: int, b: int): int
    requires b != 0
  {
    var q := (if a < 0 then -a else a) / (if b < 0 then -b else b);
    if (a < 0) != (b < 0) then -q else q
  }

  /** Int division: truncates toward zero, and Int.MIN_VALUE / -1 wraps to Int.MIN_VALUE. */
  function Quot(a: Int32, b: Int32): Int32
    requires b != 0
  {
    Wrap(TruncDiv(a, b))
  }

  /** div(scalar): None where Kotlin throws ArithmeticException for a zero scalar. */
  function Div(v: Vec2Int, scalar: Int32): (r: Option<Vec2Int>)
    ensures r.None? <==> scalar == 0
  {
    if scalar == 0 then None else Some(Vec2Int(Quot(v.x, scalar), Quot(v.y, scalar)))
  }

  /** norm2: x * x + y * y in Int arithmetic. */
  function Norm2(v: Vec2Int): Int32 {
    Add(Mul(v.x, v.x), Mul(v.y, v.y))
  }

  /** normTaxi: |x| + |y| in Int arithmetic. */
  function NormTaxi(v: Vec2Int): Int32 {
    Add(Abs(v.x), Abs(v.y))
  }

  /** The step of a direction: Vec2Int(deltaX, deltaY). */
  function Delta(d: Direction): Vec2Int {
    Vec2Int(DeltaX(d), DeltaY(d))
  }

  /** translated(d): one step in direction d. */
  function Translated(v: Vec2Int, d: Direction): Vec2Int {
    Plus(v, Delta(d))
  }

  /** The vectors form a commutative group under plus, with minus as subtraction. */
  lemma PlusGroup(a: Vec2Int, b: Vec2Int, c: Vec2Int)
    ensures Plus(a, b) == Plus(b, a)
    ensures Plus(Plus(a, b), c) == Plus(a, Plus(b, c))
    ensures Plus(a, Zero) == a && Plus(a, Neg(a)) == Zero
    ensures Minus(a, b) == Plus(a, Neg(b))
    ensures Minus(Plus(a, b), b) == a
    ensures Neg(Neg(a)) == a
  {
    WordGroup(a.x, b.x, c.x);
    WordGroup(a.y, b.y, c.y);
  }

  /** times distributes over plus, and scaling by 0, 1, -1 and 2 gives zero, the vector, its negation and its double. */
  lemma TimesLaws(a: Vec2Int, b: Vec2Int, s: Int32)
    ensures Times(Plus(a, b), s) == Plus(Times(a, s), Times(b, s))
    ensures Times(a, 0) == Zero && Times(a, 1) == a && Times(a, -1) == Neg(a) && Times(a, 2) == Plus(a, a)
  {
    WordTimes(a.x, b.x, s);
    WordTimes(a.y, b.y, s);
  }

  /** The quotient rounds toward zero: the remainder is smaller than the divisor and has the sign of the dividend. */
  lemma TruncDivRemainder(a: int, b: int)
    requires b != 0
    ensures var r := a - TruncDiv(a, b) * b;
      (if r < 0 then -r else r) < (if b < 0 then -b else b) && (r == 0 || (r < 0 <==> a < 0))
  {
    var m, n := (if a < 0 then -a else a), (if b < 0 then -b else b);
    var q := m / n;
    assert m == q * n + m % n;
    if a < 0 && b < 0 {
      assert a - q * b == -(m - q * n);
    } else if a < 0 {
      assert a - (-q) * b == -(m - q * n);
    } else if b < 0 {
      assert a - (-q) * b == m - q * n;
    }
  }

  /** Dividing by 1 changes nothing and dividing by -1 negates, including the wrap of Int.MIN_VALUE; only MIN_VALUE / -1 overflows. */
  lemma DivLaws(a: Vec2Int, x: Int32, s: Int32)
    ensures Div(a, 1) == Some(a)
    ensures Div(a, -1) == Some(Neg(a))
    ensures s != 0 && !(x == MinInt && s == -1) ==> Quot(x, s) == TruncDiv(x, s)
  {
    if s != 0 && !(x == MinInt && s == -1) {
      QuotInRange(x, s);
    }
  }

  /** The truncated quotient of two Ints is an Int unless it is MIN_VALUE / -1. */
  lemma QuotInRange(x: Int32, s: Int32)
    requires s != 0 && !(x == MinInt && s == -1)
    ensures -0x8000_0000 <= TruncDiv(x, s) < 0x8000_0000
  {
    var m: int, n: int := (if x < 0 then -(x as int) else x), (if s < 0 then -(s as int) else s);
    if n == 1 {
      assert TruncDiv(x, s) == if s < 0 then -(x as int) else x;
    } else {
      DivShrinks(m, n);
    }
  }

  /** Dividing by at least 2 at least halves. */
  lemma DivShrinks(m: nat, n: nat)
    requires n >= 2
    ensures m / n <= m / 2
  {
    var q := m / n;
    assert q * n <= m;
    assert q * n == q * 2 + q * (n - 2);
    assert q * (n - 2) >= 0;
  }

  /** Both norms ignore the sign of the vector. */
  lemma NormsOfNeg(v: Vec2Int)
    ensures Norm2(Neg(v)) == Norm2(v)
    ensures NormTaxi(Neg(v)) == NormTaxi(v)
  {
    SquareOfNegate(v.x);
    SquareOfNegate(v.y);
    AbsOfNegate(v.x);
    AbsOfNegate(v.y);
  }

  lemma SquareOfNegate(a: Int32)
    ensures Mul(Negate(a), Negate(a)) == Mul(a, a)
  {
    var m: int := -(a as int);
    var n := Negate(a);
    WrapInnerProduct(m, n);
    WrapInnerProduct(m, m);
    assert m * n == n * m;
    assert m * m == a * a;
  }

  lemma AbsOfNegate(a: Int32)
    ensures Abs(Negate(a)) == Abs(a)
  {
    if a != MinInt {
      assert Negate(a) == -a;
    }
  }

  /** For components below 2^15 in size neither norm wraps: they are the true squared and taxicab lengths. */
  lemma NormsExact(v: Vec2Int)
    requires -0x8000 < v.x < 0x8000 && -0x8000 < v.y < 0x8000
    ensures Norm2(v) == v.x * v.x + v.y * v.y
    ensures NormTaxi(v) == (if v.x < 0 then -v.x else v.x) + (if v.y < 0 then -v.y else v.y)
  {
    SquareBound(v.x);
    SquareBound(v.y);
  }

  lemma SquareBound(a: int)
    requires -0x8000 < a < 0x8000
    ensures 0 <= a * a < 0x4000_0000
  {
    var m := if a < 0 then -a else a;
    assert a * a == m * m;
    assert m * m <= m * 0x7FFF;
  }

  // ---------------------------------------------------------------------------
  // Directions as steps

  /** The four main points of the table. */
  lemma CompassDeltas()
    ensures Delta(N) == Vec2Int(0, 1) && Delta(E) == Vec2Int(1, 0)
    ensures Delta(S) == Vec2Int(0, -1) && Delta(W) == Vec2Int(-1, 0)
  {
  }

  /** A direction is cardinal exactly when its step has taxicab length 1 (and squared length 1), diagonal when 2. */
  lemma CardinalIsUnitStep(d: Direction)
    ensures Cardinal(d) <==> NormTaxi(Delta(d)) == 1
    ensures Cardinal(d) <==> Norm2(Delta(d)) == 1
    ensures Diagonal(d) <==> NormTaxi(Delta(d)) == 2 && Norm2(Delta(d)) == 2
  {
  }

  /** The eight steps are distinct, and they are all the non-zero steps with components in {-1, 0, 1}. */
  lemma DeltasAreNeighbours(a: Direction, b: Direction, dx: Int32, dy: Int32)
    ensures Delta(a) == Delta(b) ==> a == b
    ensures -1 <= dx <= 1 && -1 <= dy <= 1 && (dx, dy) != (0, 0) ==>
      exists d :: Delta(d) == Vec2Int(dx, dy)
  {
    if -1 <= dx <= 1 && -1 <= dy <= 1 && (dx, dy) != (0, 0) {
      var d :=
        if dx == 0 then (if dy == 1 then N else S)
        else if dx == 1 then (if dy == 1 then NE else if dy == 0 then E else SE)
        else (if dy == 1 then NW else if dy == 0 then W else SW);
      assert Delta(d) == Vec2Int(dx, dy);
    }
  }

  /** get(BACK) is the opposite direction, and turning back twice returns to the start. */
  lemma BackIsOpposite(d: Direction)
    ensures Delta(Get(d, Back)) == Neg(Delta(d))
    ensures Get(Get(d, Back), Back) == d
  {
    BackTwice(d);
    GetOrdinal(d, Back);
    OppositeDelta(d, Get(d, Back));
  }

  /** Two turns back make a full turn. */
  lemma BackTwice(d: Direction)
    ensures Get(Get(d, Back), Back) == d
  {
    TwoTurns(d, Back, Back);
    Returns(Get(Get(d, Back), Back), d, 4, 4);
  }

  /** The direction four eighths round steps the opposite way. */
  lemma OppositeDelta(d: Direction, e: Direction)
    requires Ordinal(e) == (Ordinal(d) + 4) % 8
    ensures Delta(e) == Neg(Delta(d))
  {
    NegateUnit();
    match d
    case N => assert e == Value(4);
    case NE => assert e == Value(5);
    case E => assert e == Value(6);
    case SE => assert e == Value(7);
    case S => assert e == Value(0);
    case SW => assert e == Value(1);
    case W => assert e == Value(2);
    case NW => assert e == Value(3);
  }

  /** Negating a unit component. */
  lemma NegateUnit()
    ensures Negate(0) == 0 && Negate(1) == -1 && Negate(-1) == 1
  {
  }

  /** Directions with the same ordinal are the same. */
  lemma OrdinalInjective(a: Direction, b: Direction)
    ensures Ordinal(a) == Ordinal(b) ==> a == b
  {
  }

  /** RIGHT turns the step a quarter clockwise, LEFT undoes RIGHT, and the front and back turns agree with it. */
  lemma QuarterTurns(d: Direction)
    ensures Delta(Get(d, Right)) == Vec2Int(Delta(d).y, Negate(Delta(d).x))
    ensures Get(Get(d, Left), Right) == d && Get(Get(d, Right), Left) == d
    ensures Get(d, RightBack) == Get(Get(d, Right), RightFront)
    ensures Get(d, LeftBack) == Get(Get(d, Left), LeftFront)
  {
    RightRotates(d);
    LeftRightCancel(d);
    BackTurnsCompose(d);
  }

  /** LEFT and RIGHT undo each other. */
  lemma LeftRightCancel(d: Direction)
    ensures Get(Get(d, Left), Right) == d && Get(Get(d, Right), Left) == d
  {
    CancellingTurns(d, Left, Right);
    CancellingTurns(d, Right, Left);
  }

  /** Two turns whose offsets cancel return to the start. */
  lemma CancellingTurns(d: Direction, r1: Relative, r2: Relative)
    requires CwOffset(r1) + CwOffset(r2) == 0
    ensures Get(Get(d, r1), r2) == d
  {
    TwoTurns(d, r1, r2);
    Returns(Get(Get(d, r1), r2), d, CwOffset(r1), CwOffset(r2));
  }

  /** Two turns that add up to no turn, or to one full turn, land where they started. */
  lemma Returns(g: Direction, d: Direction, a: int, b: int)
    requires Ordinal(g) == (Ordinal(d) + a + b) % 8 && (a + b == 0 || a + b == 8)
    ensures g == d
  {
    FullTurn(Ordinal(d), a + b);
    OrdinalInjective(g, d);
  }

  /** Adding a multiple of 8 to a residue modulo 8 keeps it. */
  lemma FullTurn(o: int, c: int)
    requires 0 <= o < 8 && c % 8 == 0
    ensures (o + c) % 8 == o
  {
    ModUnique(o + c, 8, c / 8, o);
  }

  /** RIGHT_BACK is RIGHT then RIGHT_FRONT, and LEFT_BACK is LEFT then LEFT_FRONT. */
  lemma BackTurnsCompose(d: Direction)
    ensures Get(d, RightBack) == Get(Get(d, Right), RightFront)
    ensures Get(d, LeftBack) == Get(Get(d, Left), LeftFront)
  {
    TwoTurns(d, Right, RightFront);
    GetOrdinal(d, RightBack);
    SameTurn(Get(d, RightBack), Get(Get(d, Right), RightFront), d, 3);
    TwoTurns(d, Left, LeftFront);
    GetOrdinal(d, LeftBack);
    SameTurn(Get(d, LeftBack), Get(Get(d, Left), LeftFront), d, -3);
  }

  /** Two directions the same turn away from d are the same. */
  lemma SameTurn(a: Direction, b: Direction, d: Direction, c: int)
    requires Ordinal(a) == (Ordinal(d) + c) % 8 && Ordinal(b) == (Ordinal(d) + c) % 8
    ensures a == b
  {
    OrdinalInjective(a, b);
  }

  /** The turn right, direction by direction. */
  lemma RightRotates(d: Direction)
    ensures Delta(Get(d, Right)) == Vec2Int(Delta(d).y, Negate(Delta(d).x))
  {
    GetOrdinal(d, Right);
    QuarterDelta(d, Get(d, Right));
  }

  /** The direction two eighths clockwise steps a quarter turn clockwise. */
  lemma QuarterDelta(d: Direction, e: Direction)
    requires Ordinal(e) == (Ordinal(d) + 2) % 8
    ensures Delta(e) == Vec2Int(Delta(d).y, Negate(Delta(d).x))
  {
    NegateUnit();
    match d
    case N => assert e == Value(2);
    case NE => assert e == Value(3);
    case E => assert e == Value(4);
    case SE => assert e == Value(5);
    case S => assert e == Value(6);
    case SW => assert e == Value(7);
    case W => assert e == Value(0);
    case NW => assert e == Value(1);
  }

  /** get turns the ordinal by the offset, modulo 8. */
  lemma GetOrdinal(d: Direction, r: Relative)
    ensures Ordinal(Get(d, r)) == (Ordinal(d) + CwOffset(r)) % 8
  {
    RoseOrdinal(d, Ordinal(d) + CwOffset(r));
  }

  /** Two turns in a row turn by the sum of their offsets. */
  lemma TwoTurns(d: Direction, r1: Relative, r2: Relative)
    ensures Ordinal(Get(Get(d, r1), r2)) == (Ordinal(d) + CwOffset(r1) + CwOffset(r2)) % 8
  {
    GetOrdinal(d, r1);
    GetOrdinal(Get(d, r1), r2);
    ComposeOrdinals(Get(d, r1), Get(Get(d, r1), r2), Ordinal(d) + CwOffset(r1), CwOffset(r2));
  }

  /** A turn by c after a turn to x lands at x + c. */
  lemma ComposeOrdinals(a: Direction, b: Direction, x: int, c: int)
    requires Ordinal(a) == x % 8 && Ordinal(b) == (Ordinal(a) + c) % 8
    ensures Ordinal(b) == (x + c) % 8
  {
    ModThenAdd(x, c);
  }

  /** Reducing modulo 8 before adding does not change the residue. */
  lemma ModThenAdd(x: int, b: int)
    ensures (x % 8 + b) % 8 == (x + b) % 8
  {
    var q := x / 8;
    assert x % 8 + b == (x + b) + 8 * -q;
    RoseShift(x + b, -q);
  }

  /** Indices eight apart name the same point of the rose. */
  lemma RoseShift(v: int, k: int)
    ensures (v + 8 * k) % 8 == v % 8
  {
    ModUnique(v + 8 * k, 8, v / 8 + k, v % 8);
  }

  /** LEFT, RIGHT and BACK keep a cardinal direction cardinal; the other turns switch between cardinal and diagonal. */
  lemma TurnsAndCardinality(d: Direction, r: Relative)
    ensures Cardinal(Get(d, r)) <==> (Cardinal(d) <==> CwOffset(r) % 2 == 0)
  {
    GetOrdinal(d, r);
    TurnParity(Ordinal(d), CwOffset(r));
  }

  /** The parity of a turned ordinal is the parity of the sum. */
  lemma TurnParity(o: int, c: int)
    ensures (o + c) % 8 % 2 == 0 <==> (o % 2 == 0 <==> c % 2 == 0)
  {
    var x := o + c;
    var q := x / 8;
    assert x % 8 == x + 2 * (-4 * q);
    ModUnique(x, 2, x / 2, x % 2);
    ModUnique(x % 8, 2, x / 2 - 4 * q, x % 2);
    ModUnique(o, 2, o / 2, o % 2);
    ModUnique(c, 2, c / 2, c % 2);
  }

  /** A step in direction d followed by a step back returns to the starting point. */
  lemma TranslatedBack(v: Vec2Int, d: Direction)
    ensures Translated(Translated(v, d), Get(d, Back)) == v
  {
    BackIsOpposite(d);
    var s := Delta(d);
    SubAddsNegation(Add(v.x, s.x), s.x);
    SubUndoesAdd(v.x, s.x);
    SubAddsNegation(Add(v.y, s.y), s.y);
    SubUndoesAdd(v.y, s.y);
  }

  // ---------------------------------------------------------------------------
  // Packing a vector into a Long

  /** 2^64: Long patterns are the naturals below it. */
  const LongModulus: int := 0x1_0000_0000_0000_0000

  /** The pattern of Int.toLong(): the same value, as 64 bits. */
  function LongBits(a: Int32): (r: nat)
    ensures r < LongModulus
  {
    a % LongModulus
  }

  /** Long shl 32, on patterns. */
  function Shl32(p: nat): (r: nat)
    ensures r < LongModulus
  {
    (p * Modulus) % LongModulus
  }

  /** Long.toInt(): the low 32 bits, read as an Int. */
  function ToInt(p: nat): Int32 {
    Wrap(p)
  }

  /** encoded: x in the high half, y in the low half. */
  function Encoded(v: Vec2Int): nat {
    BitOr(Shl32(LongBits(v.x)), BitAnd(LongBits(v.y), 0xFFFF_FFFF))
  }

  /** decoded: the high half, by an unsigned shift, and the low half, each read back as an Int. */
  function Decoded(e: nat): Vec2Int {
    Vec2Int(ToInt(e / Modulus), ToInt(BitAnd(e, 0xFFFF_FFFF)))
  }

  /** decoded(encoded()) is the identity, for every x and y. */
  lemma DecodedEncoded(v: Vec2Int)
    ensures Decoded(Encoded(v)) == v
  {
    var hi, lo := v.x % Modulus, v.y % Modulus;
    EncodedHalves(v);
    SplitHalves(hi, lo);
    WrapOfResidue(v.x);
    WrapOfResidue(v.y);
  }

  /** The encoding puts the low 32 bits of x above the low 32 bits of y. */
  lemma EncodedHalves(v: Vec2Int)
    ensures Encoded(v) == (v.x % Modulus) * Modulus + v.y % Modulus
  {
    HighHalf(v.x);
    Pow2Of32();
    LowBits(LongBits(v.y), 32);
    LowBitsOfLong(v.y);
    DisjointOr(v.x % Modulus, v.y % Modulus, 32);
  }

  /** A pattern built from two halves splits back into them. */
  lemma SplitHalves(hi: nat, lo: nat)
    requires lo < Modulus
    ensures (hi * Modulus + lo) / Modulus == hi
    ensures BitAnd(hi * Modulus + lo, 0xFFFF_FFFF) == lo
  {
    var e := hi * Modulus + lo;
    ModUnique(e, Modulus, hi, lo);
    Pow2Of32();
    LowBits(e, 32);
  }

  /** Shifting the pattern of a left by 32 keeps the low half of a, moved up. */
  lemma HighHalf(a: Int32)
    ensures Shl32(LongBits(a)) == (a % Modulus) * Modulus
  {
    var p := LongBits(a);
    LowBitsOfLong(a);
    var t := p / Modulus;
    assert p == t * Modulus + a % Modulus;
    assert p * Modulus == t * LongModulus + (a % Modulus) * Modulus;
    ModUnique(p * Modulus, LongModulus, t, (a % Modulus) * Modulus);
  }

  /** The low 32 bits of the Long pattern are those of the Int. */
  lemma LowBitsOfLong(a: Int32)
    ensures LongBits(a) % Modulus == a % Modulus
  {
    var p := LongBits(a);
    var t, q := a / LongModulus, a / Modulus;
    assert p == (q - t * 0x1_0000_0000) * Modulus + a % Modulus;
    ModUnique(p, Modulus, q - t * 0x1_0000_0000, a % Modulus);
  }

  /** The low 32 bits of an Int, read back, are the Int. */
  lemma WrapOfResidue(a: Int32)
    ensures Wrap(a % Modulus) == a
  {
    WrapShift(a, -(a / Modulus));
    assert a % Modulus == a + (-(a / Modulus)) * Modulus;
  }

  /** Different vectors have different encodings. */
  lemma EncodedInjective(a: Vec2Int, b: Vec2Int)
    ensures Encoded(a) == Encoded(b) ==> a == b
  {
    DecodedEncoded(a);
    DecodedEncoded(b);
  }
}

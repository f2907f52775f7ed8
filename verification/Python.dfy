/**
 The source language: Python expressions over integers and booleans, with names, calls that
 have effects, short-circuit `and` / `or` and single comparisons, and their meaning in Python.
 Integers are unbounded. An event of the trace is a call, in the order the calls happen.
 */
module Python {
  import opened Bits

  datatype Value = Int(i: int) | Bool(b: bool)

  datatype BinaryOp = Add | Sub | Mult | FloorDiv | Mod | BitAnd | BitOr | BitXor | LShift | RShift

  datatype CompareOp = Eq | NotEq | Lt | LtE | Gt | GtE

  datatype UnaryOp = USub | Not | Invert | UAdd

  datatype Expr =
    | IntConst(n: int)
    | BoolConst(b: bool)
    | Name(id: string)
    | Call(f: string)
    | BinOp(bop: BinaryOp, left: Expr, right: Expr)
    | Unary(uop: UnaryOp, operand: Expr)
    | BoolOp(isOr: bool, values: seq<Expr>)
    | Compare(cop: CompareOp, left: Expr, right: Expr)

  type Trace = seq<string>
  type Env = map<string, Value>

  // What a call returns may depend on every call before it.
  type World = (string, Trace) -> Value

  datatype Result = Val(v: Value, trace: Trace) | Raises(trace: Trace)

  // ---- Values ----

  function Num(v: Value): int {
    match v
    case Int(i) => i
    case Bool(b) => if b then 1 else 0
  }

  predicate Truth(v: Value) {
    Num(v) != 0
  }

  // Floor division and its remainder, section 6.7 of the Python Language Reference.
  function PyFloorDiv(a: int, b: int): int
    requires b != 0
  {
    if b > 0 then a / b else -a / -b
  }

  function PyMod(a: int, b: int): int
    requires b != 0
  {
    a - b * PyFloorDiv(a, b)
  }

  predicate FloorLaw(a: int, b: int, q: int, r: int) {
    && a == b * q + r
    && (r == 0 || (r < 0 <==> b < 0))
    && Abs(r) < Abs(b)
  }

  predicate Defined(op: BinaryOp, a: int, b: int) {
    match op
    case FloorDiv => b != 0
    case Mod => b != 0
    case LShift => b >= 0
    case RShift => b >= 0
    case _ => true
  }

  function IntOp(op: BinaryOp, a: int, b: int): int
    requires Defined(op, a, b)
  {
    match op
    case Add => a + b
    case Sub => a - b
    case Mult => a * b
    case FloorDiv => PyFloorDiv(a, b)
    case Mod => PyMod(a, b)
    case BitAnd => Bitwise(And, a, b)
    case BitOr => Bitwise(Or, a, b)
    case BitXor => Bitwise(Xor, a, b)
    case LShift => a * Pow2(b)
    case RShift => a / Pow2(b)
  }

  predicate CompareInts(op: CompareOp, a: int, b: int) {
    match op
    case Eq => a == b
    case NotEq => a != b
    case Lt => a < b
    case LtE => a <= b
    case Gt => a > b
    case GtE => a >= b
  }

  // `&`, `|` and `^` of two booleans are booleans; everything else gives an integer.
  function Binary(op: BinaryOp, x: Value, y: Value): Value
    requires Defined(op, Num(x), Num(y))
  {
    var r := IntOp(op, Num(x), Num(y));
    if x.Bool? && y.Bool? && (op.BitAnd? || op.BitOr? || op.BitXor?) then Bool(r != 0) else Int(r)
  }

  function UnaryValue(op: UnaryOp, x: Value): Value {
    match op
    case USub => Int(-Num(x))
    case Not => Bool(!Truth(x))
    case Invert => Int(-Num(x) - 1)
    case UAdd => Int(Num(x))
  }

  // ---- Evaluation ----

  predicate WellFormed(e: Expr) {
    match e
    case BinOp(_, l, r) => WellFormed(l) && WellFormed(r)
    case Unary(_, o) => WellFormed(o)
    case BoolOp(_, values) => values != [] && forall x | x in values :: WellFormed(x)
    case Compare(_, l, r) => WellFormed(l) && WellFormed(r)
    case _ => true
  }

  // Operands run from left to right.
  function Eval(e: Expr, env: Env, world: World, trace: Trace): Result
    requires WellFormed(e)
    decreases e, 2
  {
    match e
    case IntConst(n) => Val(Int(n), trace)
    case BoolConst(b) => Val(Bool(b), trace)
    case Name(id) => if id in env then Val(env[id], trace) else Raises(trace)
    case Call(f) => Val(world(f, trace), trace + [f])
    case BinOp(_, _, _) => EvalBinary(e, env, world, trace)
    case Unary(_, _) => EvalUnary(e, env, world, trace)
    case BoolOp(isOr, values) => EvalBool(isOr, values, env, world, trace)
    case Compare(_, _, _) => EvalBinary(e, env, world, trace)
  }

  function EvalUnary(e: Expr, env: Env, world: World, trace: Trace): Result
    requires WellFormed(e) && e.Unary?
    decreases e, 1
  {
    var x := Eval(e.operand, env, world, trace);
    if x.Raises? then x else Val(UnaryValue(e.uop, x.v), x.trace)
  }

  function EvalBinary(e: Expr, env: Env, world: World, trace: Trace): Result
    requires WellFormed(e) && (e.BinOp? || e.Compare?)
    decreases e, 1
  {
    var x := Eval(e.left, env, world, trace);
    if x.Raises? then x else
    var y := Eval(e.right, env, world, x.trace);
    if y.Raises? then y else Apply(e, x.v, y.v, y.trace)
  }

  function Apply(e: Expr, x: Value, y: Value, trace: Trace): Result
    requires e.BinOp? || e.Compare?
  {
    if e.Compare? then Val(Bool(CompareInts(e.cop, Num(x), Num(y))), trace)
    else if Defined(e.bop, Num(x), Num(y)) then Val(Binary(e.bop, x, y), trace)
    else Raises(trace)
  }

  // The value of the first operand that decides, or of the last one; the rest never runs.
  function EvalBool(isOr: bool, values: seq<Expr>, env: Env, world: World, trace: Trace): Result
    requires values != [] && forall x | x in values :: WellFormed(x)
    decreases values, 0
  {
    var x := Eval(values[0], env, world, trace);
    if x.Raises? || |values| == 1 || Truth(x.v) == isOr then x
    else EvalBool(isOr, values[1..], env, world, x.trace)
  }

  // ---- Syntax ----

  function Names(e: Expr): set<string> {
    match e
    case Name(id) => {id}
    case BinOp(_, l, r) => Names(l) + Names(r)
    case Unary(_, o) => Names(o)
    case BoolOp(_, values) => set x, id | x in values && id in Names(x) :: id
    case Compare(_, l, r) => Names(l) + Names(r)
    case _ => {}
  }

  predicate HasCall(e: Expr) {
    match e
    case Call(_) => true
    case BinOp(_, l, r) => HasCall(l) || HasCall(r)
    case Unary(_, o) => HasCall(o)
    case BoolOp(_, values) => exists x | x in values :: HasCall(x)
    case Compare(_, l, r) => HasCall(l) || HasCall(r)
    case _ => false
  }

  // ---- What the operators mean ----

  // The operands have these values, one after the other.
  ghost predicate Operands(l: Expr, r: Expr, env: Env, world: World, trace: Trace, x: Value, y: Value, after: Trace) {
    && WellFormed(l) && WellFormed(r)
    && var v := Eval(l, env, world, trace);
       v.Val? && v.v == x && Eval(r, env, world, v.trace) == Val(y, after)
  }

  // A comparison is the comparison of the numbers.
  lemma ComparisonMeans(l: Expr, r: Expr, env: Env, world: World, trace: Trace, x: Value, y: Value, after: Trace)
    requires Operands(l, r, env, world, trace, x, y, after)
    ensures Eval(Compare(Eq, l, r), env, world, trace) == Val(Bool(Num(x) == Num(y)), after)
    ensures Eval(Compare(NotEq, l, r), env, world, trace) == Val(Bool(Num(x) != Num(y)), after)
    ensures Eval(Compare(Lt, l, r), env, world, trace) == Val(Bool(Num(x) < Num(y)), after)
    ensures Eval(Compare(LtE, l, r), env, world, trace) == Val(Bool(Num(x) <= Num(y)), after)
    ensures Eval(Compare(Gt, l, r), env, world, trace) == Val(Bool(Num(x) > Num(y)), after)
    ensures Eval(Compare(GtE, l, r), env, world, trace) == Val(Bool(Num(x) >= Num(y)), after)
    ensures (x.Int? ==> Num(x) == x.i) && (x.Bool? ==> Num(x) == if x.b then 1 else 0)
  {
  }

  // `+`, `-`, `*`, and the operators that can raise: `//` and `%` by the law of section 6.7, shifts by
  // multiplying and by floor division with a power of two.
  lemma ArithmeticMeans(l: Expr, r: Expr, env: Env, world: World, trace: Trace, x: Value, y: Value, after: Trace)
    requires Operands(l, r, env, world, trace, x, y, after)
    ensures var (a, b) := (Num(x), Num(y));
            && Eval(BinOp(Add, l, r), env, world, trace) == Val(Int(a + b), after)
            && Eval(BinOp(Sub, l, r), env, world, trace) == Val(Int(a - b), after)
            && Eval(BinOp(Mult, l, r), env, world, trace) == Val(Int(a * b), after)
            && (b == 0 ==> Eval(BinOp(FloorDiv, l, r), env, world, trace) == Raises(after))
            && (b == 0 ==> Eval(BinOp(Mod, l, r), env, world, trace) == Raises(after))
            && (b < 0 ==> Eval(BinOp(LShift, l, r), env, world, trace) == Raises(after))
            && (b < 0 ==> Eval(BinOp(RShift, l, r), env, world, trace) == Raises(after))
  {
  }

  lemma DivisionMeans(l: Expr, r: Expr, env: Env, world: World, trace: Trace, x: Value, y: Value, after: Trace)
    returns (q: int, m: int)
    requires Operands(l, r, env, world, trace, x, y, after) && Num(y) != 0
    ensures Eval(BinOp(FloorDiv, l, r), env, world, trace) == Val(Int(q), after)
    ensures Eval(BinOp(Mod, l, r), env, world, trace) == Val(Int(m), after)
    ensures Num(x) == Num(y) * q + m && if Num(y) > 0 then 0 <= m < Num(y) else Num(y) < m <= 0
  {
    q, m := PyFloorDiv(Num(x), Num(y)), PyMod(Num(x), Num(y));
    FloorLawHolds(Num(x), Num(y));
    FloorLawMeans(Num(x), Num(y), q, m);
  }

  lemma ShiftsMean(l: Expr, r: Expr, env: Env, world: World, trace: Trace, x: Value, y: Value, after: Trace)
    returns (up: int, down: int)
    requires Operands(l, r, env, world, trace, x, y, after) && Num(y) >= 0
    ensures Eval(BinOp(LShift, l, r), env, world, trace) == Val(Int(up), after)
    ensures Eval(BinOp(RShift, l, r), env, world, trace) == Val(Int(down), after)
    ensures up == Num(x) * Pow2(Num(y)) && Pow2(Num(y)) * down <= Num(x) < Pow2(Num(y)) * down + Pow2(Num(y))
  {
    up, down := Num(x) * Pow2(Num(y)), Num(x) / Pow2(Num(y));
    QuotientBelow(Num(x), Pow2(Num(y)));
  }

  lemma QuotientBelow(a: int, p: int)
    requires p > 0
    ensures p * (a / p) <= a < p * (a / p) + p
  {
  }

  // `&`, `|` and `^` work bit by bit, and on two Booleans they give a Boolean.
  lemma BitwiseMeans(op: BinaryOp, l: Expr, r: Expr, env: Env, world: World, trace: Trace, x: Value, y: Value,
                     after: Trace)
    returns (n: int)
    requires op.BitAnd? || op.BitOr? || op.BitXor?
    requires Operands(l, r, env, world, trace, x, y, after)
    ensures Eval(BinOp(op, l, r), env, world, trace) == Val(if x.Bool? && y.Bool? then Bool(n != 0) else Int(n), after)
    ensures forall k: nat {:trigger BitAt(n, k)} ::
              BitAt(n, k) == 1 <==>
                match op
                case BitAnd => BitAt(Num(x), k) == 1 && BitAt(Num(y), k) == 1
                case BitOr => BitAt(Num(x), k) == 1 || BitAt(Num(y), k) == 1
                case _ => BitAt(Num(x), k) != BitAt(Num(y), k)
  {
    n := IntOp(op, Num(x), Num(y));
    forall k: nat
      ensures BitAt(n, k) == 1 <==>
                match op
                case BitAnd => BitAt(Num(x), k) == 1 && BitAt(Num(y), k) == 1
                case BitOr => BitAt(Num(x), k) == 1 || BitAt(Num(y), k) == 1
                case _ => BitAt(Num(x), k) != BitAt(Num(y), k)
    {
      BitwiseTable(Num(x), Num(y), k);
    }
  }

  lemma UnaryMeans(o: Expr, env: Env, world: World, trace: Trace, x: Value, after: Trace)
    requires WellFormed(o) && Eval(o, env, world, trace) == Val(x, after)
    ensures Eval(Unary(USub, o), env, world, trace) == Val(Int(-Num(x)), after)
    ensures Eval(Unary(UAdd, o), env, world, trace) == Val(Int(Num(x)), after)
    ensures Eval(Unary(Invert, o), env, world, trace) == Val(Int(-Num(x) - 1), after)
    ensures Eval(Unary(Not, o), env, world, trace) == Val(Bool(Num(x) == 0), after)
  {
  }

  // `x or ..` is x where x is not zero, and otherwise what comes behind; `x and ..` the other way round.
  lemma BoolOpMeans(values: seq<Expr>, env: Env, world: World, trace: Trace, x: Value, after: Trace)
    requires |values| > 1 && (forall e | e in values :: WellFormed(e))
               && Eval(values[0], env, world, trace) == Val(x, after)
    ensures Eval(BoolOp(true, values), env, world, trace) ==
            if Num(x) != 0 then Val(x, after) else Eval(BoolOp(true, values[1..]), env, world, after)
    ensures Eval(BoolOp(false, values), env, world, trace) ==
            if Num(x) == 0 then Val(x, after) else Eval(BoolOp(false, values[1..]), env, world, after)
    ensures Eval(BoolOp(true, values[..1]), env, world, trace) == Val(x, after)
    ensures Eval(BoolOp(false, values[..1]), env, world, trace) == Val(x, after)
  {
  }

  // ---- Laws ----

  // The law of section 6.7 determines quotient and remainder.
  lemma FloorLawHolds(a: int, b: int)
    requires b != 0
    ensures FloorLaw(a, b, PyFloorDiv(a, b), PyMod(a, b))
  {
    var q := PyFloorDiv(a, b);
    if b > 0 {
      assert a == b * q + a % b;
    } else {
      assert -a == -b * q + -a % -b;
      assert -b * q == -(b * q);
    }
  }

  lemma FloorLawMeans(a: int, b: int, q: int, r: int)
    requires b != 0 && FloorLaw(a, b, q, r)
    ensures a == b * q + r && if b > 0 then 0 <= r < b else b < r <= 0
  {
  }

  lemma FloorLawUnique(a: int, b: int, q: int, r: int)
    requires b != 0 && FloorLaw(a, b, q, r)
    ensures q == PyFloorDiv(a, b) && r == PyMod(a, b)
  {
    if b > 0 {
      DivUnique(a, b, q, r);
    } else {
      assert -a == -b * q + -r by {
        assert -b * q == -(b * q);
      }
      DivUnique(-a, -b, q, -r);
    }
  }

  // An expression without calls leaves the trace alone and does not read it.
  lemma {:induction false} NoCallNoTrace(e: Expr, env: Env, world: World, s: Trace, t: Trace)
    requires WellFormed(e) && !HasCall(e)
    ensures Eval(e, env, world, s).trace == s
    ensures Eval(e, env, world, t) == Eval(e, env, world, s).(trace := t)
    decreases e, 1
  {
    match e
    case BinOp(_, l, r) =>
      NoCallNoTrace(l, env, world, s, t);
      NoCallNoTrace(r, env, world, s, t);
    case Unary(_, o) =>
      NoCallNoTrace(o, env, world, s, t);
    case BoolOp(isOr, values) =>
      NoCallNoTraceBool(isOr, values, env, world, s, t);
    case Compare(_, l, r) =>
      NoCallNoTrace(l, env, world, s, t);
      NoCallNoTrace(r, env, world, s, t);
    case _ =>
  }

  lemma {:induction false} NoCallNoTraceBool(isOr: bool, values: seq<Expr>, env: Env, world: World, s: Trace, t: Trace)
    requires values != [] && forall x | x in values :: WellFormed(x) && !HasCall(x)
    ensures EvalBool(isOr, values, env, world, s).trace == s
    ensures EvalBool(isOr, values, env, world, t) == EvalBool(isOr, values, env, world, s).(trace := t)
    decreases values, 0
  {
    NoCallNoTrace(values[0], env, world, s, t);
    if |values| > 1 {
      NoCallNoTraceBool(isOr, values[1..], env, world, s, t);
    }
  }
}

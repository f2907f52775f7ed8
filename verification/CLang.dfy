/**
 The fragment of C the transpiler emits for expressions, as trees, and its evaluation on words.
 The trees call a runtime library, which is a parameter here. C does not fix the order in which
 the two arguments of a call run: `order` chooses it for every call. Stuck stands for a panic,
 for undefined behaviour and for what is not modelled.
 */
module CLang {
  import opened Bits
  import Python

  // What a runtime operator can do: give a word, panic, or leave C's defined behaviour; the
  // float and heap branches of the operators are elsewhere.
  datatype Outcome = Ok(word: Word) | Panic | Undefined | Elsewhere

  datatype Runtime = Runtime(
    packI: int -> Word,
    packB: bool -> Word,
    truthy: Word -> bool,
    binary: (Python.BinaryOp, Word, Word) -> Outcome,
    compare: (Python.CompareOp, Word, Word) -> Outcome,
    negate: Word -> Word,
    invert: Word -> Outcome)

  datatype CExpr =
    | PackIntLit(n: int)
    | PackBoolLit(b: bool)
    | Var(id: string)
    | CallFn(f: string)
    | Binary(bop: Python.BinaryOp, left: CExpr, right: CExpr)
    | Compare(cop: Python.CompareOp, left: CExpr, right: CExpr)
    | NegateI(arg: CExpr)
    | PackNotTruthy(arg: CExpr)
    | InvertFn(arg: CExpr)
    // ({ estus__duck temp = (init); truthy(temp) ? .. : ..; }) where the `or` form yields temp
    // when it is true and the rest otherwise, and the `and` form the other way round.
    | Choose(temp: string, init: CExpr, isOr: bool, rest: CExpr)

  type Trace = Python.Trace
  type Vars = map<string, Word>
  type Order = (CExpr, Trace) -> bool

  // The library, what calls return, and the order of call arguments.
  datatype Machine = Machine(rt: Runtime, world: Python.World, order: Order)

  datatype Result = Val(word: Word, trace: Trace) | Stuck

  predicate FitsInt64(i: int) {
    -TWO63 <= i < TWO63
  }

  // The word a function written in C hands back for a value.
  function Encode(rt: Runtime, v: Python.Value): Word {
    match v
    case Int(i) => rt.packI(i)
    case Bool(b) => rt.packB(b)
  }

  function FromOutcome(r: Outcome, trace: Trace): Result {
    if r.Ok? then Val(r.word, trace) else Stuck
  }

  datatype Args = Both(x: Word, y: Word, trace: Trace) | Neither

  function Eval(m: Machine, c: CExpr, vars: Vars, trace: Trace): Result
    decreases c, 2
  {
    match c
    case PackIntLit(n) => if FitsInt64(n) then Val(m.rt.packI(n), trace) else Stuck
    case PackBoolLit(b) => Val(m.rt.packB(b), trace)
    case Var(id) => if id in vars then Val(vars[id], trace) else Stuck
    case CallFn(f) => Val(Encode(m.rt, m.world(f, trace)), trace + [f])
    case Binary(_, _, _) => EvalBinary(m, c, vars, trace)
    case Compare(_, _, _) => EvalBinary(m, c, vars, trace)
    case NegateI(a) => EvalUnary(m, c, vars, trace)
    case PackNotTruthy(a) => EvalUnary(m, c, vars, trace)
    case InvertFn(a) => EvalUnary(m, c, vars, trace)
    case Choose(_, _, _, _) => EvalChoose(m, c, vars, trace)
  }

  function EvalUnary(m: Machine, c: CExpr, vars: Vars, trace: Trace): Result
    requires c.NegateI? || c.PackNotTruthy? || c.InvertFn?
    decreases c, 1
  {
    OnResult(m, c, Eval(m, c.arg, vars, trace))
  }

  function OnResult(m: Machine, c: CExpr, x: Result): Result
    requires c.NegateI? || c.PackNotTruthy? || c.InvertFn?
  {
    if x.Stuck? then x
    else if c.NegateI? then Val(m.rt.negate(x.word), x.trace)
    else if c.PackNotTruthy? then Val(m.rt.packB(!m.rt.truthy(x.word)), x.trace)
    else FromOutcome(m.rt.invert(x.word), x.trace)
  }

  function EvalChoose(m: Machine, c: CExpr, vars: Vars, trace: Trace): Result
    requires c.Choose?
    decreases c, 1
  {
    // The temporary is in scope, and without a value, inside its own initializer.
    var x := Eval(m, c.init, vars - {c.temp}, trace);
    if x.Stuck? then x else
    var inner := vars[c.temp := x.word];
    if m.rt.truthy(inner[c.temp]) == c.isOr then Val(inner[c.temp], x.trace)
    else Eval(m, c.rest, inner, x.trace)
  }

  function EvalBinary(m: Machine, c: CExpr, vars: Vars, trace: Trace): Result
    requires c.Binary? || c.Compare?
    decreases c, 1
  {
    OnArgs(m, c, EvalArgs(m, c, vars, trace))
  }

  function OnArgs(m: Machine, c: CExpr, args: Args): Result
    requires c.Binary? || c.Compare?
  {
    if args.Neither? then Stuck
    else if c.Binary? then FromOutcome(m.rt.binary(c.bop, args.x, args.y), args.trace)
    else FromOutcome(m.rt.compare(c.cop, args.x, args.y), args.trace)
  }

  // The two arguments of a call, in whichever order was chosen.
  function EvalArgs(m: Machine, c: CExpr, vars: Vars, trace: Trace): Args
    requires c.Binary? || c.Compare?
    decreases c, 0
  {
    if m.order(c, trace) then
      var x := Eval(m, c.left, vars, trace);
      if x.Stuck? then Neither else
      var y := Eval(m, c.right, vars, x.trace);
      if y.Stuck? then Neither else Both(x.word, y.word, y.trace)
    else
      var y := Eval(m, c.right, vars, trace);
      if y.Stuck? then Neither else
      var x := Eval(m, c.left, vars, y.trace);
      if x.Stuck? then Neither else Both(x.word, y.word, x.trace)
  }
}

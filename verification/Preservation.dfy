/**
 The emitted C means what the Python expression means: on every expression in the domain, for
 every counter, environment and world and every order in which C runs call arguments, the C
 tree gives the word of the Python value and the same trace of calls.
 */
module Preservation {
  import opened Python
  import opened Transpiler
  import opened Bits
  import C = CLang

  // Whether the C value is a BOOL word; Python's own type can differ, as for `True & True` or `+True`.
  predicate IsBoolWord(e: Expr, env: Env, world: World, trace: Trace)
    requires WellFormed(e)
    decreases e, 1
  {
    match e
    case IntConst(_) => false
    case BoolConst(_) => true
    case Name(id) => id in env && env[id].Bool?
    case Call(f) => world(f, trace).Bool?
    case BinOp(_, _, _) => false
    case Unary(op, o) => op.Not? || (op.UAdd? && IsBoolWord(o, env, world, trace))
    case BoolOp(isOr, values) => ChoosesBoolWord(isOr, values, env, world, trace)
    case Compare(_, _, _) => true
  }

  predicate ChoosesBoolWord(isOr: bool, values: seq<Expr>, env: Env, world: World, trace: Trace)
    requires values != [] && forall x | x in values :: WellFormed(x)
    decreases values, 0
  {
    var x := Eval(values[0], env, world, trace);
    if |values| == 1 || x.Raises? || Truth(x.v) == isOr then IsBoolWord(values[0], env, world, trace)
    else ChoosesBoolWord(isOr, values[1..], env, world, x.trace)
  }

  // What the arithmetic asks of the operands: no division by zero, C's shift counts, and a
  // result that an INT word can hold.
  predicate OperatorFits(op: BinaryOp, a: int, b: int) {
    && Defined(op, a, b)
    && (op.LShift? ==> a >= 0)
    && (op.LShift? || op.RShift? ==> b < 64)
    && Canonical(IntOp(op, a, b))
  }

  // Every value the evaluation meets can be held by a word, and `-` meets no BOOL word.
  // Operands that do not run are not constrained.
  predicate InDomain(e: Expr, env: Env, world: World, trace: Trace)
    requires WellFormed(e)
    decreases e, 2
  {
    match e
    case IntConst(n) => Canonical(n)
    case BoolConst(_) => true
    case Name(id) => id in env && Canonical(Num(env[id]))
    case Call(f) => Canonical(Num(world(f, trace)))
    case BinOp(_, _, _) => ArgsInDomain(e, env, world, trace)
    case Unary(_, _) => OperandInDomain(e, env, world, trace)
    case BoolOp(isOr, values) => OperandsInDomain(isOr, values, env, world, trace)
    case Compare(_, _, _) => ArgsInDomain(e, env, world, trace)
  }

  predicate OperandInDomain(e: Expr, env: Env, world: World, trace: Trace)
    requires WellFormed(e) && e.Unary?
    decreases e, 1
  {
    var x := Eval(e.operand, env, world, trace);
    && InDomain(e.operand, env, world, trace) && x.Val?
    && (e.uop.USub? ==> !IsBoolWord(e.operand, env, world, trace))
    && (e.uop.Invert? ==> Canonical(-Num(x.v) - 1))
  }

  predicate ArgsInDomain(e: Expr, env: Env, world: World, trace: Trace)
    requires WellFormed(e) && (e.BinOp? || e.Compare?)
    decreases e, 1
  {
    var x := Eval(e.left, env, world, trace);
    var y := Eval(e.right, env, world, x.trace);
    && InDomain(e.left, env, world, trace) && x.Val?
    && InDomain(e.right, env, world, x.trace) && y.Val?
    && (e.BinOp? ==> OperatorFits(e.bop, Num(x.v), Num(y.v)))
  }

  predicate OperandsInDomain(isOr: bool, values: seq<Expr>, env: Env, world: World, trace: Trace)
    requires values != [] && forall x | x in values :: WellFormed(x)
    decreases values, 0
  {
    var x := Eval(values[0], env, world, trace);
    && InDomain(values[0], env, world, trace)
    && (|values| == 1 || x.Raises? || Truth(x.v) == isOr
        || OperandsInDomain(isOr, values[1..], env, world, x.trace))
  }

  // At most one argument of each C call makes calls of its own.
  predicate OrderSafe(e: Expr) {
    match e
    case BinOp(_, l, r) => OrderSafe(l) && OrderSafe(r) && !(HasCall(l) && HasCall(r))
    case Unary(_, o) => OrderSafe(o)
    case BoolOp(_, values) => forall x | x in values :: OrderSafe(x)
    case Compare(_, l, r) => OrderSafe(l) && OrderSafe(r) && !(HasCall(l) && HasCall(r))
    case _ => true
  }

  // No variable has the name of a temporary numbered from m up to n.
  ghost predicate NoCapture(names: set<string>, m: nat, n: nat) {
    forall k: nat :: m <= k < n ==> TempName(k) !in names
  }

  // ---- The runtime library ----

  // The word a number travels in: a BOOL word for a Boolean result, an INT word otherwise.
  function WordOf(rt: C.Runtime, n: int, asBool: bool): Word {
    if asBool then rt.packB(n != 0) else rt.packI(n)
  }

  predicate Number(n: int, asBool: bool) {
    Canonical(n) && (asBool ==> 0 <= n <= 1)
  }

  // What the emitted code needs of the library: on words of numbers in range, truth,
  // operators and comparisons are Python's.
  ghost predicate Implements(rt: C.Runtime) {
    && (forall n, b | Number(n, b) :: rt.truthy(WordOf(rt, n, b)) <==> n != 0)
    && (forall op, k, b, n, c | Number(k, b) && Number(n, c) && OperatorFits(op, k, n) ::
          rt.binary(op, WordOf(rt, k, b), WordOf(rt, n, c)) == C.Ok(rt.packI(IntOp(op, k, n))))
    && (forall op, k, b, n, c | Number(k, b) && Number(n, c) ::
          rt.compare(op, WordOf(rt, k, b), WordOf(rt, n, c)) == C.Ok(rt.packB(CompareInts(op, k, n))))
    && (forall n | Canonical(n) :: rt.negate(rt.packI(n)) == rt.packI(-n))
    && (forall n, b | Number(n, b) && Canonical(-n - 1) :: rt.invert(WordOf(rt, n, b)) == C.Ok(rt.packI(-n - 1)))
  }

  // vars holds the words of the variables.
  predicate Agree(rt: C.Runtime, vars: C.Vars, env: Env, names: set<string>) {
    forall x | x in names && x in env :: x in vars && vars[x] == C.Encode(rt, env[x])
  }

  // The result C must give.
  ghost predicate Delivers(m: C.Machine, r: C.Result, e: Expr, env: Env, trace: Trace)
    requires WellFormed(e)
  {
    var p, asBool := Eval(e, env, m.world, trace), IsBoolWord(e, env, m.world, trace);
    && p.Val? && Number(Num(p.v), asBool)
    && r == C.Val(WordOf(m.rt, Num(p.v), asBool), p.trace)
  }

  // ---- Expressions without calls do not depend on the trace ----

  lemma {:induction false} NoCallSameDomain(e: Expr, env: Env, world: World, s: Trace, t: Trace)
    requires WellFormed(e) && !HasCall(e)
    ensures IsBoolWord(e, env, world, s) == IsBoolWord(e, env, world, t)
    ensures InDomain(e, env, world, s) == InDomain(e, env, world, t)
    decreases e, 1
  {
    match e
    case BinOp(_, l, r) =>
      NoCallPair(l, r, env, world, s, t);
    case Unary(_, o) =>
      NoCallNoTrace(o, env, world, s, t);
      NoCallSameDomain(o, env, world, s, t);
    case BoolOp(isOr, values) =>
      NoCallSameOperands(isOr, values, env, world, s, t);
    case Compare(_, l, r) =>
      NoCallPair(l, r, env, world, s, t);
    case _ =>
  }

  lemma {:induction false} NoCallPair(l: Expr, r: Expr, env: Env, world: World, s: Trace, t: Trace)
    requires WellFormed(l) && !HasCall(l) && WellFormed(r) && !HasCall(r)
    ensures Eval(l, env, world, s).trace == s && Eval(l, env, world, t) == Eval(l, env, world, s).(trace := t)
    ensures Eval(r, env, world, s).trace == s && Eval(r, env, world, t) == Eval(r, env, world, s).(trace := t)
    ensures InDomain(l, env, world, s) == InDomain(l, env, world, t)
    ensures InDomain(r, env, world, s) == InDomain(r, env, world, t)
    decreases if l < r then r else l, 2
  {
    NoCallNoTrace(l, env, world, s, t);
    NoCallNoTrace(r, env, world, s, t);
    NoCallSameDomain(l, env, world, s, t);
    NoCallSameDomain(r, env, world, s, t);
  }

  lemma {:induction false} NoCallSameOperands(isOr: bool, values: seq<Expr>, env: Env, world: World, s: Trace, t: Trace)
    requires values != [] && forall x | x in values :: WellFormed(x) && !HasCall(x)
    ensures ChoosesBoolWord(isOr, values, env, world, s) == ChoosesBoolWord(isOr, values, env, world, t)
    ensures OperandsInDomain(isOr, values, env, world, s) == OperandsInDomain(isOr, values, env, world, t)
    decreases values, 0
  {
    NoCallNoTrace(values[0], env, world, s, t);
    NoCallSameDomain(values[0], env, world, s, t);
    if |values| > 1 {
      NoCallSameOperands(isOr, values[1..], env, world, s, t);
    }
  }

  // ---- The theorem ----

  // vars holds the variables of e and no temporary of the emitter clashes with one.
  ghost predicate Ready(e: Expr, n: nat, env: Env, m: C.Machine, vars: C.Vars)
    requires WellFormed(e)
  {
    Agree(m.rt, vars, env, Names(e)) && NoCapture(Names(e), n, Emit(e, n).1)
  }

  lemma {:induction false} Preserves(e: Expr, n: nat, env: Env, m: C.Machine, vars: C.Vars, trace: Trace)
    requires Implements(m.rt) && WellFormed(e) && OrderSafe(e)
    requires InDomain(e, env, m.world, trace) && Ready(e, n, env, m, vars)
    ensures Delivers(m, C.Eval(m, Emit(e, n).0, vars, trace), e, env, trace)
    decreases e, 3
  {
    match e
    case BinOp(_, _, _) => PreservesOperator(e, n, env, m, vars, trace);
    case Compare(_, _, _) => PreservesOperator(e, n, env, m, vars, trace);
    case Unary(_, _) => PreservesUnary(e, n, env, m, vars, trace);
    case BoolOp(isOr, values) =>
      assert forall x | x in values :: Names(x) <= Names(e);
      PreservesBool(isOr, values, n, env, m, vars, trace);
    case _ =>
  }

  lemma {:induction false} PreservesOperator(e: Expr, n: nat, env: Env, m: C.Machine, vars: C.Vars, trace: Trace)
    requires e.BinOp? || e.Compare?
    requires Implements(m.rt) && WellFormed(e) && OrderSafe(e)
    requires InDomain(e, env, m.world, trace) && Ready(e, n, env, m, vars)
    ensures Delivers(m, C.Eval(m, Emit(e, n).0, vars, trace), e, env, trace)
    decreases e, 2
  {
    var c := Emit(e, n).0;
    PreservesArgs(e, n, env, m, vars, trace);
    BinaryDelivers(e, c, C.EvalArgs(m, c, vars, trace), env, m, trace);
  }

  // Both arguments of a C call carry the words of the operands, whichever ran first.
  ghost predicate DeliversArgs(m: C.Machine, args: C.Args, l: Expr, r: Expr, env: Env, trace: Trace)
    requires WellFormed(l) && WellFormed(r)
  {
    var x, boolX := Eval(l, env, m.world, trace), IsBoolWord(l, env, m.world, trace);
    var y, boolY := Eval(r, env, m.world, x.trace), IsBoolWord(r, env, m.world, x.trace);
    && x.Val? && Number(Num(x.v), boolX) && y.Val? && Number(Num(y.v), boolY)
    && args == C.Both(WordOf(m.rt, Num(x.v), boolX), WordOf(m.rt, Num(y.v), boolY), y.trace)
  }

  lemma {:induction false} BinaryDelivers(e: Expr, c: C.CExpr, args: C.Args, env: Env, m: C.Machine, trace: Trace)
    requires Implements(m.rt) && WellFormed(e) && InDomain(e, env, m.world, trace)
    requires (e.BinOp? && c.Binary? && c.bop == e.bop) || (e.Compare? && c.Compare? && c.cop == e.cop)
    requires DeliversArgs(m, args, e.left, e.right, env, trace)
    ensures Delivers(m, C.OnArgs(m, c, args), e, env, trace)
  {
    var x := Eval(e.left, env, m.world, trace).v;
    var y := Eval(e.right, env, m.world, Eval(e.left, env, m.world, trace).trace).v;
    if e.BinOp? {
      BitwiseOfBools(e.bop, x, y);
    }
  }

  // A bitwise operator on 0 and 1 gives 0 or 1.
  lemma {:induction false} BitwiseOfBools(op: BinaryOp, x: Value, y: Value)
    requires Defined(op, Num(x), Num(y))
    ensures Num(Binary(op, x, y)) == IntOp(op, Num(x), Num(y))
  {
  }

  lemma {:induction false} PreservesArgs(e: Expr, n: nat, env: Env, m: C.Machine, vars: C.Vars, trace: Trace)
    requires e.BinOp? || e.Compare?
    requires Implements(m.rt) && WellFormed(e) && OrderSafe(e)
    requires InDomain(e, env, m.world, trace) && Ready(e, n, env, m, vars)
    ensures DeliversArgs(m, C.EvalArgs(m, Emit(e, n).0, vars, trace), e.left, e.right, env, trace)
    decreases e, 1
  {
    SplitArgs(e, n, env, m, vars, trace);
    if m.order(Emit(e, n).0, trace) {
      LeftFirst(e, n, env, m, vars, trace);
    } else {
      RightFirst(e, n, env, m, vars, trace);
    }
  }

  // What holds of a binary expression holds of its arguments.
  lemma {:induction false} SplitArgs(e: Expr, n: nat, env: Env, m: C.Machine, vars: C.Vars, trace: Trace)
    requires (e.BinOp? || e.Compare?) && WellFormed(e) && OrderSafe(e)
    requires InDomain(e, env, m.world, trace) && Ready(e, n, env, m, vars)
    ensures ArgsReady(e, n, env, m, vars, trace)
  {
  }

  ghost predicate ArgsReady(e: Expr, n: nat, env: Env, m: C.Machine, vars: C.Vars, trace: Trace)
    requires (e.BinOp? || e.Compare?) && WellFormed(e)
  {
    var nl, x := Emit(e.left, n).1, Eval(e.left, env, m.world, trace);
    && OrderSafe(e.left) && OrderSafe(e.right) && !(HasCall(e.left) && HasCall(e.right))
    && InDomain(e.left, env, m.world, trace) && Ready(e.left, n, env, m, vars)
    && InDomain(e.right, env, m.world, x.trace) && Ready(e.right, nl, env, m, vars)
  }

  lemma {:induction false} LeftFirst(e: Expr, n: nat, env: Env, m: C.Machine, vars: C.Vars, trace: Trace)
    requires (e.BinOp? || e.Compare?) && WellFormed(e) && m.order(Emit(e, n).0, trace)
    requires Implements(m.rt) && ArgsReady(e, n, env, m, vars, trace)
    ensures DeliversArgs(m, C.EvalArgs(m, Emit(e, n).0, vars, trace), e.left, e.right, env, trace)
    decreases e, 0
  {
    var nl, x := Emit(e.left, n).1, Eval(e.left, env, m.world, trace);
    PreservesAt(e.left, n, env, m, vars, trace, trace);
    PreservesAt(e.right, nl, env, m, vars, x.trace, x.trace);
  }

  lemma {:induction false} RightFirst(e: Expr, n: nat, env: Env, m: C.Machine, vars: C.Vars, trace: Trace)
    requires (e.BinOp? || e.Compare?) && WellFormed(e) && !m.order(Emit(e, n).0, trace)
    requires Implements(m.rt) && ArgsReady(e, n, env, m, vars, trace)
    ensures DeliversArgs(m, C.EvalArgs(m, Emit(e, n).0, vars, trace), e.left, e.right, env, trace)
    decreases e, 0
  {
    var nl, x := Emit(e.left, n).1, Eval(e.left, env, m.world, trace);
    if !HasCall(e.left) {
      NoCallNoTrace(e.left, env, m.world, trace, trace);
    }
    PreservesAt(e.right, nl, env, m, vars, x.trace, trace);
    PreservesAt(e.left, n, env, m, vars, trace, C.Eval(m, Emit(e.right, nl).0, vars, trace).trace);
  }

  // An argument that runs at the trace `at`, where Python runs it at `trace`.
  lemma {:induction false} PreservesAt(e: Expr, n: nat, env: Env, m: C.Machine, vars: C.Vars, trace: Trace, at: Trace)
    requires Implements(m.rt) && WellFormed(e) && OrderSafe(e)
    requires InDomain(e, env, m.world, trace) && Ready(e, n, env, m, vars)
    requires HasCall(e) ==> at == trace
    ensures var p, asBool := Eval(e, env, m.world, trace), IsBoolWord(e, env, m.world, trace);
            && p.Val? && Number(Num(p.v), asBool) && (!HasCall(e) ==> p.trace == trace)
            && C.Eval(m, Emit(e, n).0, vars, at) ==
               C.Val(WordOf(m.rt, Num(p.v), asBool), if HasCall(e) then p.trace else at)
    decreases e, 4
  {
    if !HasCall(e) {
      NoCallNoTrace(e, env, m.world, trace, at);
      NoCallSameDomain(e, env, m.world, trace, at);
    }
    Preserves(e, n, env, m, vars, at);
  }

  lemma {:induction false} PreservesUnary(e: Expr, n: nat, env: Env, m: C.Machine, vars: C.Vars, trace: Trace)
    requires e.Unary?
    requires Implements(m.rt) && WellFormed(e) && OrderSafe(e)
    requires InDomain(e, env, m.world, trace) && Ready(e, n, env, m, vars)
    ensures Delivers(m, C.Eval(m, Emit(e, n).0, vars, trace), e, env, trace)
    decreases e, 1
  {
    if !(e.uop.USub? && e.operand.IntConst?) {
      var c := Emit(e.operand, n).0;
      Preserves(e.operand, n, env, m, vars, trace);
      UnaryDelivers(e, c, C.Eval(m, c, vars, trace), env, m, trace);
    } else {
      assert InDomain(e.operand, env, m.world, trace);
    }
  }

  lemma {:induction false} UnaryDelivers(e: Expr, c: C.CExpr, x: C.Result, env: Env, m: C.Machine, trace: Trace)
    requires Implements(m.rt) && e.Unary? && WellFormed(e) && InDomain(e, env, m.world, trace)
    requires Delivers(m, x, e.operand, env, trace)
    ensures Delivers(m, if e.uop.UAdd? then x else C.OnResult(m, Wrap(e.uop, c), x), e, env, trace)
  {
    var k, asBool := Num(Eval(e.operand, env, m.world, trace).v), IsBoolWord(e.operand, env, m.world, trace);
    assert x.word == WordOf(m.rt, k, asBool);
  }

  // What the list of operands of a BoolOp delivers.
  ghost predicate DeliversChoice(m: C.Machine, r: C.Result, isOr: bool, values: seq<Expr>, env: Env, trace: Trace)
    requires values != [] && forall x | x in values :: WellFormed(x)
  {
    var p, asBool := EvalBool(isOr, values, env, m.world, trace), ChoosesBoolWord(isOr, values, env, m.world, trace);
    && p.Val? && Number(Num(p.v), asBool)
    && r == C.Val(WordOf(m.rt, Num(p.v), asBool), p.trace)
  }

  lemma {:induction false} PreservesBool(isOr: bool, values: seq<Expr>, n: nat, env: Env, m: C.Machine,
                                         vars: C.Vars, trace: Trace)
    requires Implements(m.rt) && values != [] && forall x | x in values :: WellFormed(x) && OrderSafe(x)
    requires OperandsInDomain(isOr, values, env, m.world, trace)
    requires forall x | x in values ::
               Agree(m.rt, vars, env, Names(x)) && NoCapture(Names(x), n, EmitBool(isOr, values, n).1)
    ensures DeliversChoice(m, C.Eval(m, EmitBool(isOr, values, n).0, vars, trace), isOr, values, env, trace)
    decreases values, 1
  {
    if |values| == 1 {
      Preserves(values[0], n, env, m, vars, trace);
    } else {
      PreservesChoice(isOr, values, n, env, m, vars, trace);
    }
  }

  // The first operand goes into a temporary; the rest is evaluated, with it in scope, if needed.
  lemma {:induction false} PreservesChoice(isOr: bool, values: seq<Expr>, n: nat, env: Env, m: C.Machine,
                                           vars: C.Vars, trace: Trace)
    requires Implements(m.rt) && |values| > 1 && forall x | x in values :: WellFormed(x) && OrderSafe(x)
    requires OperandsInDomain(isOr, values, env, m.world, trace)
    requires forall x | x in values ::
               Agree(m.rt, vars, env, Names(x)) && NoCapture(Names(x), n, EmitBool(isOr, values, n).1)
    ensures DeliversChoice(m, C.Eval(m, EmitBool(isOr, values, n).0, vars, trace), isOr, values, env, trace)
    decreases values, 0
  {
    var (rest, n1) := EmitBool(isOr, values[1..], n);
    var init, temp := Emit(values[0], n1 + 1).0, TempName(n1);
    TempIsFree(values, n, n1, EmitBool(isOr, values, n).1);
    Preserves(values[0], n1 + 1, env, m, vars - {temp}, trace);
    var x := C.Eval(m, init, vars - {temp}, trace);
    var inner := vars[temp := x.word];
    if Truth(Eval(values[0], env, m.world, trace).v) != isOr {
      PreservesBool(isOr, values[1..], n, env, m, inner, x.trace);
    }
    ChooseDelivers(isOr, values, x, C.Eval(m, rest, inner, x.trace), env, m, trace);
    EvalOfChoose(m, temp, init, isOr, rest, vars, trace);
  }

  lemma {:induction false} EvalOfChoose(m: C.Machine, temp: string, init: C.CExpr, isOr: bool, rest: C.CExpr,
                                        vars: C.Vars, trace: Trace)
    requires C.Eval(m, init, vars - {temp}, trace).Val?
    ensures var x := C.Eval(m, init, vars - {temp}, trace);
            C.Eval(m, C.Choose(temp, init, isOr, rest), vars, trace)
            == if m.rt.truthy(x.word) == isOr then x else C.Eval(m, rest, vars[temp := x.word], x.trace)
  {
  }

  lemma {:induction false} TempIsFree(values: seq<Expr>, n: nat, k: nat, n2: nat)
    requires n <= k < n2 && forall x | x in values :: NoCapture(Names(x), n, n2)
    ensures forall x | x in values :: TempName(k) !in Names(x)
  {
  }

  // One `and` / `or` step: x is the first operand, kept in a temporary, y the rest.
  lemma {:induction false} ChooseDelivers(isOr: bool, values: seq<Expr>, x: C.Result, y: C.Result,
                                          env: Env, m: C.Machine, trace: Trace)
    requires Implements(m.rt) && |values| > 1 && forall x | x in values :: WellFormed(x)
    requires Delivers(m, x, values[0], env, trace)
    requires Truth(Eval(values[0], env, m.world, trace).v) != isOr ==>
             DeliversChoice(m, y, isOr, values[1..], env, x.trace)
    ensures DeliversChoice(m, if m.rt.truthy(x.word) == isOr then x else y, isOr, values, env, trace)
  {
    var k, asBool := Num(Eval(values[0], env, m.world, trace).v), IsBoolWord(values[0], env, m.world, trace);
    assert x.word == WordOf(m.rt, k, asBool);
  }

  // ---- Where the premises matter ----

  lemma {:induction false} EmitPair(id: string, isOr: bool, r: Expr, n: nat)
    requires WellFormed(r)
    ensures var e := BoolOp(isOr, [Name(id), r]); var (rest, n1) := Emit(r, n);
            WellFormed(e) && Emit(e, n) == (C.Choose(TempName(n1), C.Var(id), isOr, rest), n1 + 1)
            && Names(e) == {id} + Names(r) && (OrderSafe(r) ==> OrderSafe(e))
  {
    var values := [Name(id), r];
    var (rest, n1) := Emit(r, n);
    assert values[1..] == [r] && values[0] in values && values[1] in values;
    assert EmitBool(isOr, values[1..], n) == (rest, n1);
    assert Emit(values[0], n1 + 1) == (C.Var(id), n1 + 1);
    assert EmitBool(isOr, values, n) == (C.Choose(TempName(n1), C.Var(id), isOr, rest), n1 + 1);
    forall x
      ensures x in Names(BoolOp(isOr, values)) <==> x in {id} + Names(r)
    {
      assert x in Names(BoolOp(isOr, values)) <==> exists v :: v in values && x in Names(v);
      assert Names(values[0]) == {id};
      if x in {id} + Names(r) {
        assert x in Names(values[0]) || x in Names(values[1]);
      }
    }
  }

  // A variable named like the temporary that is to hold it reads that temporary before it has
  // a value: `x and r` runs in C exactly when x is not that name.
  lemma {:induction false} CapturedName(id: string, isOr: bool, r: Expr, n: nat, env: Env, m: C.Machine, vars: C.Vars,
                                        trace: Trace)
    requires Implements(m.rt) && WellFormed(r) && OrderSafe(r)
    requires var e := BoolOp(isOr, [Name(id), r]);
             WellFormed(e) && InDomain(e, env, m.world, trace) && Agree(m.rt, vars, env, Names(e))
    requires NoCapture(Names(r), n, Emit(r, n).1 + 1) && NoCapture({id}, n, Emit(r, n).1)
    ensures C.Eval(m, Emit(BoolOp(isOr, [Name(id), r]), n).0, vars, trace).Val? <==> id != TempName(Emit(r, n).1)
  {
    var e := BoolOp(isOr, [Name(id), r]);
    var (rest, n1) := Emit(r, n);
    EmitPair(id, isOr, r, n);
    if id == TempName(n1) {
      assert C.Eval(m, C.Var(id), vars - {id}, trace).Stuck?;
      assert C.EvalChoose(m, C.Choose(id, C.Var(id), isOr, rest), vars, trace).Stuck?;
    } else {
      assert NoCapture(Names(e), n, n1 + 1);
      Preserves(e, n, env, m, vars, trace);
    }
  }

  // A variable in the rest that is named like the temporary reads the temporary: C evaluates the
  // expression as Python would if that variable had the value of the first operand.
  lemma {:induction false} CapturedOperand(id: string, isOr: bool, r: Expr, n: nat, env: Env, m: C.Machine,
                                           vars: C.Vars, trace: Trace)
    requires Implements(m.rt) && WellFormed(r) && OrderSafe(r) && id in env && id != TempName(Emit(r, n).1)
    requires Agree(m.rt, vars, env, {id} + Names(r)) && NoCapture(Names(r), n, Emit(r, n).1)
    requires var swapped := env[TempName(Emit(r, n).1) := env[id]];
             OperandsInDomain(isOr, [Name(id), r], swapped, m.world, trace)
    ensures var swapped := env[TempName(Emit(r, n).1) := env[id]];
            DeliversChoice(m, C.Eval(m, Emit(BoolOp(isOr, [Name(id), r]), n).0, vars, trace), isOr, [Name(id), r],
              swapped, trace)
  {
    var (rest, n1) := Emit(r, n);
    var temp, values := TempName(n1), [Name(id), r];
    var swapped := env[temp := env[id]];
    EmitPair(id, isOr, r, n);
    var x := C.Eval(m, C.Var(id), vars - {temp}, trace);
    var inner := vars[temp := x.word];
    NameDelivers(id, swapped, m, vars - {temp}, trace);
    assert values[1..] == [r];
    if Truth(env[id]) != isOr {
      PreservesBool(isOr, [r], n, swapped, m, inner, trace);
    }
    ChooseDelivers(isOr, values, x, C.Eval(m, rest, inner, trace), swapped, m, trace);
    EvalOfChoose(m, temp, C.Var(id), isOr, rest, vars, trace);
  }

  lemma {:induction false} NameDelivers(id: string, env: Env, m: C.Machine, vars: C.Vars, trace: Trace)
    requires id in env && Canonical(Num(env[id])) && Agree(m.rt, vars, env, {id})
    ensures var x := C.Eval(m, C.Var(id), vars, trace);
            Delivers(m, x, Name(id), env, trace) && x == C.Val(C.Encode(m.rt, env[id]), trace)
  {
  }

  // So `x and y`, with y named like the temporary, always gives x, and nothing shows it. Python
  // gives x exactly when x decides, or the two are the same.
  lemma {:induction false} CaptureGivesFirst(id: string, isOr: bool, n: nat, env: Env, m: C.Machine, vars: C.Vars,
                                             trace: Trace)
    requires Implements(m.rt) && {id, TempName(n)} <= env.Keys && id != TempName(n)
    requires Agree(m.rt, vars, env, {id, TempName(n)}) && Canonical(Num(env[id]))
    ensures var e := BoolOp(isOr, [Name(id), Name(TempName(n))]);
            && WellFormed(e) && C.Eval(m, Emit(e, n).0, vars, trace) == C.Val(C.Encode(m.rt, env[id]), trace)
            && (Eval(e, env, m.world, trace) == Val(env[id], trace) <==>
                 Truth(env[id]) == isOr || env[id] == env[TempName(n)])
  {
    var r := Name(TempName(n));
    EmitPair(id, isOr, r, n);
    PairOfNames(id, TempName(n), isOr, env[TempName(n) := env[id]], m.world, trace);
    PairOfNames(id, TempName(n), isOr, env, m.world, trace);
    CapturedOperand(id, isOr, r, n, env, m, vars, trace);
  }

  lemma {:induction false} PairOfNames(x: string, y: string, isOr: bool, env: Env, world: World, trace: Trace)
    requires {x, y} <= env.Keys && Canonical(Num(env[x])) && WellFormed(Name(y))
    ensures var values := [Name(x), Name(y)];
            && (forall v | v in values :: WellFormed(v))
            && (Truth(env[x]) == isOr || Canonical(Num(env[y])) ==> OperandsInDomain(isOr, values, env, world, trace))
            && EvalBool(isOr, values, env, world, trace) == Val(if Truth(env[x]) == isOr then env[x] else env[y], trace)
            && ChoosesBoolWord(isOr, values, env, world, trace) ==
               (if Truth(env[x]) == isOr then env[x] else env[y]).Bool?
  {
    var values := [Name(x), Name(y)];
    assert values[1..] == [Name(y)];
    assert Eval(values[0], env, world, trace) == Val(env[x], trace);
    assert EvalBool(isOr, [Name(y)], env, world, trace) == Val(env[y], trace);
    assert ChoosesBoolWord(isOr, [Name(y)], env, world, trace) == env[y].Bool?;
    assert Canonical(Num(env[y])) ==> OperandsInDomain(isOr, [Name(y)], env, world, trace);
  }

  // With a call on both sides, a compiler that runs the right argument first keeps Python's
  // trace exactly when the two calls are the same.
  lemma {:induction false} OrderMatters(e: Expr, op: BinaryOp, f: string, g: string, n: nat, env: Env, m: C.Machine,
                                        vars: C.Vars, trace: Trace)
    requires Implements(m.rt) && e == BinOp(op, Call(f), Call(g)) && WellFormed(e.left) && WellFormed(e.right)
    requires !m.order(Emit(e, n).0, trace) && InDomain(e, env, m.world, trace)
    requires var x, y := Num(m.world(f, trace + [g])), Num(m.world(g, trace));
             Canonical(x) && Canonical(y) && OperatorFits(op, x, y)
    ensures var r := C.Eval(m, Emit(e, n).0, vars, trace);
            r.Val? && (r.trace == Eval(e, env, m.world, trace).trace <==> f == g)
  {
    var c, x, y := Emit(e, n).0, m.world(f, trace + [g]), m.world(g, trace);
    assert C.EvalArgs(m, c, vars, trace)
        == C.Both(WordOf(m.rt, Num(x), x.Bool?), WordOf(m.rt, Num(y), y.Bool?), trace + [g] + [f]);
    assert Eval(e, env, m.world, trace).trace == trace + [f] + [g];
    assert (trace + [f] + [g])[|trace|] == f && (trace + [g] + [f])[|trace|] == g;
  }
}

/**
 C may run the two arguments of a call in any interleaving. Here the emitted expressions run in
 small steps, and a path chosen for every step says which argument makes it. If at most one
 argument of each call makes calls itself, every run ends, and as if the left argument ran first.
 */
module Interleaving {
  import opened CLang
  import opened Bits
  import P = Python
  import T = Transpiler
  import opened Preservation

  // An expression that is being evaluated.
  datatype Conf =
    | Todo(c: CExpr, vars: Vars)
    | Done(w: Word)
    | Dead
    | Op(c: CExpr, left: Conf, right: Conf)
    | Un(c: CExpr, arg: Conf)
    | Pick(c: CExpr, vars: Vars, init: Conf)

  predicate IsBinary(c: CExpr) {
    c.Binary? || c.Compare?
  }

  predicate IsUnary(c: CExpr) {
    c.NegateI? || c.PackNotTruthy? || c.InvertFn?
  }

  predicate Formed(k: Conf) {
    match k
    case Op(c, l, r) => IsBinary(c) && Formed(l) && Formed(r)
    case Un(c, a) => IsUnary(c) && Formed(a)
    case Pick(c, _, i) => c.Choose? && Formed(i)
    case _ => true
  }

  // ---- Steps ----

  function Settle(r: Result): Conf {
    if r.Val? then Done(r.word) else Dead
  }

  // What begins when an expression is reached: only a call does something at once.
  function Start(m: Machine, c: CExpr, vars: Vars, trace: Trace): (Conf, Trace) {
    match c
    case Binary(_, l, r) => (Op(c, Todo(l, vars), Todo(r, vars)), trace)
    case Compare(_, l, r) => (Op(c, Todo(l, vars), Todo(r, vars)), trace)
    case NegateI(a) => (Un(c, Todo(a, vars)), trace)
    case PackNotTruthy(a) => (Un(c, Todo(a, vars)), trace)
    case InvertFn(a) => (Un(c, Todo(a, vars)), trace)
    case Choose(temp, init, _, _) => (Pick(c, vars, Todo(init, vars - {temp})), trace)
    case CallFn(f) => (Done(Encode(m.rt, m.world(f, trace))), trace + [f])
    case _ => (Settle(Eval(m, c, vars, trace)), trace)
  }

  // One step; the path says, operator by operator, which argument makes it if both still can.
  function Step(m: Machine, k: Conf, trace: Trace, path: seq<bool>): (Conf, Trace)
    requires Formed(k)
  {
    match k
    case Todo(c, vars) => Start(m, c, vars, trace)
    case Op(c, l, r) =>
      if l.Dead? || r.Dead? then (Dead, trace)
      else if l.Done? && r.Done? then (Settle(OnArgs(m, c, Both(l.w, r.w, trace))), trace)
      else if r.Done? || (!l.Done? && path != [] && path[0]) then
        var (l', t) := Step(m, l, trace, Rest(path));
        (Op(c, l', r), t)
      else
        var (r', t) := Step(m, r, trace, Rest(path));
        (Op(c, l, r'), t)
    case Un(c, a) =>
      if a.Dead? then (Dead, trace)
      else if a.Done? then (Settle(OnResult(m, c, Val(a.w, trace))), trace)
      else
        var (a', t) := Step(m, a, trace, path);
        (Un(c, a'), t)
    case Pick(c, vars, i) =>
      if i.Dead? then (Dead, trace)
      else if i.Done? then
        (if m.rt.truthy(i.w) == c.isOr then Done(i.w) else Todo(c.rest, vars[c.temp := i.w]), trace)
      else
        var (i', t) := Step(m, i, trace, path);
        (Pick(c, vars, i'), t)
    case _ => (k, trace)
  }

  function Rest(path: seq<bool>): seq<bool> {
    if path == [] then [] else path[1..]
  }

  function Run(m: Machine, k: Conf, trace: Trace, paths: seq<seq<bool>>): (Conf, Trace)
    requires Formed(k)
    decreases |paths|
  {
    if paths == [] then (k, trace) else
    var (k', t) := Step(m, k, trace, paths[0]);
    StepForms(m, k, trace, paths[0]);
    Run(m, k', t, paths[1..])
  }

  lemma {:induction false} StepForms(m: Machine, k: Conf, trace: Trace, path: seq<bool>)
    requires Formed(k)
    ensures Formed(Step(m, k, trace, path).0)
    decreases k
  {
    match k
    case Op(c, l, r) =>
      StepForms(m, l, trace, Rest(path));
      StepForms(m, r, trace, Rest(path));
    case Un(c, a) => StepForms(m, a, trace, path);
    case Pick(c, vars, i) => StepForms(m, i, trace, path);
    case _ =>
  }

  // ---- Runs end ----

  function Nodes(c: CExpr): (n: nat) {
    match c
    case Binary(_, l, r) => 2 + Nodes(l) + Nodes(r)
    case Compare(_, l, r) => 2 + Nodes(l) + Nodes(r)
    case NegateI(a) => 2 + Nodes(a)
    case PackNotTruthy(a) => 2 + Nodes(a)
    case InvertFn(a) => 2 + Nodes(a)
    case Choose(_, i, _, r) => 2 + Nodes(i) + Nodes(r)
    case _ => 1
  }

  // The steps that are left at most.
  function Left(k: Conf): nat {
    match k
    case Todo(c, _) => Nodes(c)
    case Op(c, l, r) => 1 + Left(l) + Left(r)
    case Un(c, a) => 1 + Left(a)
    case Pick(c, _, i) => 1 + Left(i) + if c.Choose? then Nodes(c.rest) else 0
    case _ => 0
  }

  lemma {:induction false} StepsEnd(m: Machine, k: Conf, trace: Trace, path: seq<bool>)
    requires Formed(k)
    ensures k.Done? || k.Dead? || Left(Step(m, k, trace, path).0) < Left(k)
    decreases k
  {
    match k
    case Op(c, l, r) =>
      StepsEnd(m, l, trace, Rest(path));
      StepsEnd(m, r, trace, Rest(path));
    case Un(c, a) => StepsEnd(m, a, trace, path);
    case Pick(c, vars, i) => StepsEnd(m, i, trace, path);
    case _ =>
  }

  // ---- What every run must end in ----

  // The machine that runs the left argument first, always.
  function LeftFirst(m: Machine): Machine {
    Machine(m.rt, m.world, (c, t) => true)
  }

  predicate Calls(c: CExpr) {
    match c
    case CallFn(_) => true
    case Binary(_, l, r) => Calls(l) || Calls(r)
    case Compare(_, l, r) => Calls(l) || Calls(r)
    case NegateI(a) => Calls(a)
    case PackNotTruthy(a) => Calls(a)
    case InvertFn(a) => Calls(a)
    case Choose(_, i, _, r) => Calls(i) || Calls(r)
    case _ => false
  }

  // At most one argument of each operator makes calls.
  predicate Safe(c: CExpr) {
    match c
    case Binary(_, l, r) => Safe(l) && Safe(r) && !(Calls(l) && Calls(r))
    case Compare(_, l, r) => Safe(l) && Safe(r) && !(Calls(l) && Calls(r))
    case NegateI(a) => Safe(a)
    case PackNotTruthy(a) => Safe(a)
    case InvertFn(a) => Safe(a)
    case Choose(_, i, _, r) => Safe(i) && Safe(r)
    case _ => true
  }

  // A configuration that may still make a call.
  predicate Busy(k: Conf) {
    match k
    case Todo(c, _) => Calls(c)
    case Op(_, l, r) => Busy(l) || Busy(r)
    case Un(_, a) => Busy(a)
    case Pick(c, _, i) => Busy(i) || (c.Choose? && Calls(c.rest))
    case _ => false
  }

  predicate SafeConf(k: Conf) {
    match k
    case Todo(c, _) => Safe(c)
    case Op(_, l, r) => SafeConf(l) && SafeConf(r) && !(Busy(l) && Busy(r))
    case Un(_, a) => SafeConf(a)
    case Pick(c, _, i) => SafeConf(i) && (c.Choose? ==> Safe(c.rest))
    case _ => true
  }

  // The result of finishing from here, left arguments first.
  function Meaning(m: Machine, k: Conf, trace: Trace): Result
    requires Formed(k)
    decreases k, 0
  {
    match k
    case Todo(c, vars) => Eval(LeftFirst(m), c, vars, trace)
    case Done(w) => Val(w, trace)
    case Dead => Stuck
    case Op(c, l, r) => OnArgs(m, c, MeaningOfArgs(Meaning(m, l, trace), m, r))
    case Un(c, a) => OnResult(m, c, Meaning(m, a, trace))
    case Pick(c, vars, i) => Picked(m, c, vars, Meaning(m, i, trace))
  }

  function MeaningOfArgs(x: Result, m: Machine, r: Conf): Args
    requires Formed(r)
    decreases r, 1
  {
    if x.Stuck? then Neither else
    var y := Meaning(m, r, x.trace);
    if y.Stuck? then Neither else Both(x.word, y.word, y.trace)
  }

  function Picked(m: Machine, c: CExpr, vars: Vars, x: Result): Result
    requires c.Choose?
  {
    if x.Stuck? then x
    else if m.rt.truthy(x.word) == c.isOr then x
    else Eval(LeftFirst(m), c.rest, vars[c.temp := x.word], x.trace)
  }

  // ---- What makes no call does not depend on the trace ----

  // The same result at another trace.
  function At(r: Result, trace: Trace): Result {
    if r.Val? then Val(r.word, trace) else r
  }

  lemma {:induction false} QuietEval(m: Machine, c: CExpr, vars: Vars, s: Trace, t: Trace)
    requires !Calls(c)
    ensures Eval(LeftFirst(m), c, vars, s) == At(Eval(LeftFirst(m), c, vars, t), s)
    decreases c
  {
    match c
    case Binary(_, l, r) => QuietArgs(m, c, vars, s, t);
    case Compare(_, l, r) => QuietArgs(m, c, vars, s, t);
    case NegateI(a) => QuietEval(m, a, vars, s, t);
    case PackNotTruthy(a) => QuietEval(m, a, vars, s, t);
    case InvertFn(a) => QuietEval(m, a, vars, s, t);
    case Choose(temp, i, isOr, r) =>
      QuietEval(m, i, vars - {temp}, s, t);
      QuietEval(m, i, vars - {temp}, t, t);
      var x := Eval(LeftFirst(m), i, vars - {temp}, t);
      if x.Val? {
        QuietEval(m, r, vars[temp := x.word], s, t);
      }
    case _ =>
  }

  lemma {:induction false} QuietArgs(m: Machine, c: CExpr, vars: Vars, s: Trace, t: Trace)
    requires IsBinary(c) && !Calls(c.left) && !Calls(c.right)
    ensures Eval(LeftFirst(m), c, vars, s) == At(Eval(LeftFirst(m), c, vars, t), s)
    decreases c, 0
  {
    QuietEval(m, c.left, vars, s, t);
    QuietEval(m, c.left, vars, t, t);
    QuietEval(m, c.right, vars, s, t);
    QuietEval(m, c.right, vars, t, t);
    var l := LeftFirst(m);
    var a, b := EvalArgs(l, c, vars, s), EvalArgs(l, c, vars, t);
    assert a == if b.Both? then Both(b.x, b.y, s) else b;
    assert b.Both? ==> b.trace == t;
    assert Eval(l, c, vars, s) == OnArgs(l, c, a);
    assert Eval(l, c, vars, t) == OnArgs(l, c, b);
  }

  lemma {:induction false} QuietMeaning(m: Machine, k: Conf, s: Trace, t: Trace)
    requires Formed(k) && !Busy(k)
    ensures Meaning(m, k, s) == At(Meaning(m, k, t), s)
    decreases k
  {
    match k
    case Todo(c, vars) => QuietEval(m, c, vars, s, t);
    case Op(c, l, r) =>
      QuietMeaning(m, l, s, t);
      QuietMeaning(m, l, t, t);
      QuietMeaning(m, r, s, t);
      QuietMeaning(m, r, t, t);
    case Un(c, a) => QuietMeaning(m, a, s, t);
    case Pick(c, vars, i) =>
      QuietMeaning(m, i, s, t);
      QuietMeaning(m, i, t, t);
      var x := Meaning(m, i, t);
      if x.Val? {
        QuietEval(m, c.rest, vars[c.temp := x.word], s, t);
      }
    case _ =>
  }

  // ---- A step changes nothing of what the run must end in ----

  lemma {:induction false} StartPreserves(m: Machine, c: CExpr, vars: Vars, trace: Trace)
    requires Safe(c) && Formed(Start(m, c, vars, trace).0)
    ensures var (k, t) := Start(m, c, vars, trace);
            && Meaning(m, k, t) == Eval(LeftFirst(m), c, vars, trace)
            && SafeConf(k) && (Busy(k) ==> Calls(c)) && (!Calls(c) ==> t == trace)
  {
    var l := LeftFirst(m);
    match c
    case Binary(_, _, _) => StartOp(m, c, vars, trace);
    case Compare(_, _, _) => StartOp(m, c, vars, trace);
    case NegateI(a) => AboutTodo(m, a, vars, trace);
    case PackNotTruthy(a) => AboutTodo(m, a, vars, trace);
    case InvertFn(a) => AboutTodo(m, a, vars, trace);
    case Choose(temp, i, _, _) => AboutTodo(m, i, vars - {temp}, trace);
    case _ =>
  }

  lemma {:induction false} StartOp(m: Machine, c: CExpr, vars: Vars, trace: Trace)
    requires Safe(c) && IsBinary(c)
    ensures var k := Op(c, Todo(c.left, vars), Todo(c.right, vars));
            && Formed(k.left) && Formed(k.right) && Meaning(m, k, trace) == Eval(LeftFirst(m), c, vars, trace)
            && SafeConf(k) && (Busy(k) ==> Calls(c))
  {
    var l, x := LeftFirst(m), Todo(c.left, vars);
    AboutTodo(m, c.left, vars, trace);
    AboutTodo(m, c.right, vars, trace);
    var args := MeaningOfArgs(Meaning(m, x, trace), m, Todo(c.right, vars));
    assert args == EvalArgs(l, c, vars, trace);
    assert Eval(l, c, vars, trace) == OnArgs(l, c, args);
  }

  lemma {:induction false} AboutTodo(m: Machine, c: CExpr, vars: Vars, trace: Trace)
    ensures var k := Todo(c, vars);
            && SafeConf(k) == Safe(c) && Busy(k) == Calls(c)
            && forall t :: Meaning(m, k, t) == Eval(LeftFirst(m), c, vars, t)
  {
  }

  // What a step of k keeps, if the run from k is to give a value.
  predicate Kept(m: Machine, k: Conf, trace: Trace, next: (Conf, Trace))
    requires Formed(k)
  {
    && Formed(next.0) && Meaning(m, next.0, next.1) == Meaning(m, k, trace)
    && SafeConf(next.0) && (Busy(next.0) ==> Busy(k)) && (!Busy(k) ==> next.1 == trace)
  }

  lemma {:induction false} StepPreserves(m: Machine, k: Conf, trace: Trace, path: seq<bool>)
    requires Formed(k) && SafeConf(k) && Meaning(m, k, trace).Val?
    ensures Kept(m, k, trace, Step(m, k, trace, path))
    decreases k, 1
  {
    StepForms(m, k, trace, path);
    match k
    case Todo(c, vars) => StartPreserves(m, c, vars, trace);
    case Op(_, _, _) => OpPreserves(m, k, trace, path);
    case Un(_, a) =>
      if !a.Dead? && !a.Done? {
        StepPreserves(m, a, trace, path);
      }
    case Pick(_, _, i) =>
      if !i.Dead? && !i.Done? {
        StepPreserves(m, i, trace, path);
      }
    case _ =>
  }

  lemma {:induction false} OpPreserves(m: Machine, k: Conf, trace: Trace, path: seq<bool>)
    requires k.Op? && Formed(k) && SafeConf(k) && Meaning(m, k, trace).Val?
    ensures Kept(m, k, trace, Step(m, k, trace, path))
    decreases k, 0
  {
    var l, r := k.left, k.right;
    StepForms(m, k, trace, path);
    if l.Done? && r.Done? {
      assert Meaning(m, k, trace) == OnArgs(m, k.c, Both(l.w, r.w, trace)) by {
        assert Meaning(m, l, trace) == Val(l.w, trace);
        assert Meaning(m, r, trace) == Val(r.w, trace);
      }
    } else if r.Done? || (!l.Done? && path != [] && path[0]) {
      StepPreserves(m, l, trace, Rest(path));
      LeftStep(m, k, trace, Step(m, l, trace, Rest(path)));
    } else {
      if Busy(r) {
        QuietMeaning(m, l, trace, trace);
      } else {
        QuietMeaning(m, r, trace, Meaning(m, l, trace).trace);
      }
      StepPreserves(m, r, trace, Rest(path));
      RightStep(m, k, trace, Step(m, r, trace, Rest(path)));
    }
  }

  lemma {:induction false} LeftStep(m: Machine, k: Conf, trace: Trace, next: (Conf, Trace))
    requires k.Op? && Formed(k) && SafeConf(k) && Kept(m, k.left, trace, next)
    ensures Kept(m, k, trace, (Op(k.c, next.0, k.right), next.1))
  {
  }

  // The right argument makes the step; one of the two is quiet.
  lemma {:induction false} RightStep(m: Machine, k: Conf, trace: Trace, next: (Conf, Trace))
    requires k.Op? && Formed(k) && SafeConf(k) && Meaning(m, k, trace).Val? && Kept(m, k.right, trace, next)
    ensures Kept(m, k, trace, (Op(k.c, k.left, next.0), next.1))
  {
    var x := Meaning(m, k.left, trace);
    if Busy(k.right) {
      QuietMeaning(m, k.left, trace, trace);
      QuietMeaning(m, k.left, next.1, trace);
    } else {
      QuietMeaning(m, k.right, x.trace, trace);
      QuietMeaning(m, next.0, x.trace, trace);
    }
  }

  // ---- Whole runs ----

  lemma {:induction false} RunKeeps(m: Machine, k: Conf, trace: Trace, paths: seq<seq<bool>>)
    requires Formed(k) && SafeConf(k) && Meaning(m, k, trace).Val? && |paths| >= Left(k)
    ensures var (k', t) := Run(m, k, trace, paths);
            k'.Done? && Val(k'.w, t) == Meaning(m, k, trace)
    decreases |paths|
  {
    if paths != [] {
      var (k', t) := Step(m, k, trace, paths[0]);
      StepPreserves(m, k, trace, paths[0]);
      StepsEnd(m, k, trace, paths[0]);
      if k.Done? || k.Dead? {
        DoneStays(m, k, trace, paths[0]);
      }
      RunKeeps(m, k', t, paths[1..]);
    } else {
      NoneLeft(k);
    }
  }

  lemma DoneStays(m: Machine, k: Conf, trace: Trace, path: seq<bool>)
    requires k.Done? || k.Dead?
    ensures Step(m, k, trace, path) == (k, trace)
  {
  }

  lemma {:induction false} NoneLeft(k: Conf)
    requires Left(k) == 0
    ensures k.Done? || k.Dead?
  {
  }

  // ---- Emitted expressions ----

  lemma {:induction false} EmittedIsSafe(e: P.Expr, n: nat)
    requires P.WellFormed(e)
    ensures Calls(T.Emit(e, n).0) == P.HasCall(e) && (OrderSafe(e) ==> Safe(T.Emit(e, n).0))
    decreases e, 1
  {
    match e
    case BinOp(_, l, r) =>
      EmittedIsSafe(l, n);
      EmittedIsSafe(r, T.Emit(l, n).1);
    case Compare(_, l, r) =>
      EmittedIsSafe(l, n);
      EmittedIsSafe(r, T.Emit(l, n).1);
    case Unary(_, o) => EmittedIsSafe(o, n);
    case BoolOp(isOr, values) => EmittedBoolIsSafe(isOr, values, n);
    case _ =>
  }

  lemma {:induction false} EmittedBoolIsSafe(isOr: bool, values: seq<P.Expr>, n: nat)
    requires values != [] && forall x | x in values :: P.WellFormed(x)
    ensures Calls(T.EmitBool(isOr, values, n).0) == exists x | x in values :: P.HasCall(x)
    ensures (forall x | x in values :: OrderSafe(x)) ==> Safe(T.EmitBool(isOr, values, n).0)
    decreases values, 0
  {
    EmittedIsSafe(values[0], if |values| == 1 then n else T.EmitBool(isOr, values[1..], n).1 + 1);
    if |values| > 1 {
      EmittedBoolIsSafe(isOr, values[1..], n);
      FirstOrRest(values);
    }
  }

  lemma {:induction false} FirstOrRest(values: seq<P.Expr>)
    requires values != []
    ensures (exists x | x in values :: P.HasCall(x)) <==>
              P.HasCall(values[0]) || exists x | x in values[1..] :: P.HasCall(x)
    ensures (forall x | x in values :: OrderSafe(x)) <==>
              OrderSafe(values[0]) && forall x | x in values[1..] :: OrderSafe(x)
  {
    assert forall x :: x in values <==> x == values[0] || x in values[1..];
  }

  // However the steps of the arguments are interleaved, the run ends in the word of Python's
  // value, after Python's calls in Python's order.
  lemma EveryRunPreserves(e: P.Expr, n: nat, env: P.Env, m: Machine, vars: Vars, trace: Trace, paths: seq<seq<bool>>)
    requires Implements(m.rt) && P.WellFormed(e) && OrderSafe(e)
    requires InDomain(e, env, m.world, trace) && Ready(e, n, env, m, vars)
    requires |paths| >= Nodes(T.Emit(e, n).0)
    ensures var (k, t) := Run(m, Todo(T.Emit(e, n).0, vars), trace, paths);
            k.Done? && Delivers(m, Val(k.w, t), e, env, trace)
  {
    var c := T.Emit(e, n).0;
    EmittedIsSafe(e, n);
    Preserves(e, n, env, LeftFirst(m), vars, trace);
    RunKeeps(m, Todo(c, vars), trace, paths);
  }
}

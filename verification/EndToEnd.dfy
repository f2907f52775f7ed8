/**
 The theorem for the real runtime library, and where its last premise matters: `-` on a BOOL word.
 */
module EndToEnd {
  import opened Bits
  import opened Duckbox
  import opened Python
  import opened Transpiler
  import opened Preservation
  import Interleaving
  import A = Arithmetic
  import C = CLang

  ghost function DuckRuntime(): C.Runtime {
    C.Runtime(
      (i: int) => if C.FitsInt64(i) then PackI(i) else 0,
      (b: bool) => PackB(b),
      (w: Word) => A.Truthy(w),
      (op: BinaryOp, x: Word, y: Word) => A.Binary(op, x, y),
      (op: CompareOp, x: Word, y: Word) => A.Compare(op, x, y),
      (w: Word) => NegateI(w),
      (w: Word) => A.Invert(w))
  }

  // ---- The laws of the library ----

  ghost function NumberWord(n: int, asBool: bool): Duck
    requires Number(n, asBool)
  {
    if asBool then PackB(n != 0) else PackI(n)
  }

  lemma NumberWordFacts(n: int, asBool: bool)
    requires Number(n, asBool)
    ensures WordOf(DuckRuntime(), n, asBool) == NumberWord(n, asBool)
    ensures A.Carries(NumberWord(n, asBool), n)
    ensures A.Truthy(NumberWord(n, asBool)) <==> n != 0
  {
    if asBool {
      A.BoolOperand(n != 0);
      A.TruthOfBool(n != 0);
    } else {
      A.IntOperand(n);
      A.TruthOfInt(n);
    }
  }

  lemma TruthLaw(n: int, b: bool)
    requires Number(n, b)
    ensures DuckRuntime().truthy(WordOf(DuckRuntime(), n, b)) <==> n != 0
  {
    NumberWordFacts(n, b);
  }

  lemma BinaryLaw(op: BinaryOp, k: int, b: bool, n: int, c: bool)
    requires Number(k, b) && Number(n, c) && OperatorFits(op, k, n)
    ensures var rt := DuckRuntime();
            rt.binary(op, WordOf(rt, k, b), WordOf(rt, n, c)) == C.Ok(rt.packI(IntOp(op, k, n)))
  {
    NumberWordFacts(k, b);
    NumberWordFacts(n, c);
    A.BinaryExact(op, NumberWord(k, b), k, NumberWord(n, c), n);
  }

  lemma CompareLaw(op: CompareOp, k: int, b: bool, n: int, c: bool)
    requires Number(k, b) && Number(n, c)
    ensures var rt := DuckRuntime();
            rt.compare(op, WordOf(rt, k, b), WordOf(rt, n, c)) == C.Ok(rt.packB(CompareInts(op, k, n)))
  {
    NumberWordFacts(k, b);
    NumberWordFacts(n, c);
    A.CompareExact(op, NumberWord(k, b), k, NumberWord(n, c), n);
  }

  lemma NegateLaw(n: int)
    requires Canonical(n)
    ensures DuckRuntime().negate(DuckRuntime().packI(n)) == DuckRuntime().packI(-n)
  {
    NegateExact(n);
  }

  lemma NegateExact(n: int)
    requires Canonical(n)
    ensures NegateI(PackI(n)) == PackI(-n)
  {
    A.IntOperand(n);
  }

  lemma InvertLaw(n: int, b: bool)
    requires Number(n, b) && Canonical(-n - 1)
    ensures var rt := DuckRuntime();
            rt.invert(WordOf(rt, n, b)) == C.Ok(rt.packI(-n - 1))
  {
    NumberWordFacts(n, b);
    A.InvertExact(NumberWord(n, b), n);
  }

  lemma DuckRuntimeImplements()
    ensures Implements(DuckRuntime())
  {
    var rt := DuckRuntime();
    forall n, b | Number(n, b)
      ensures rt.truthy(WordOf(rt, n, b)) <==> n != 0
    {
      TruthLaw(n, b);
    }
    forall op, k, b, n, c | Number(k, b) && Number(n, c) && OperatorFits(op, k, n)
      ensures rt.binary(op, WordOf(rt, k, b), WordOf(rt, n, c)) == C.Ok(rt.packI(IntOp(op, k, n)))
    {
      BinaryLaw(op, k, b, n, c);
    }
    forall op, k, b, n, c | Number(k, b) && Number(n, c)
      ensures rt.compare(op, WordOf(rt, k, b), WordOf(rt, n, c)) == C.Ok(rt.packB(CompareInts(op, k, n)))
    {
      CompareLaw(op, k, b, n, c);
    }
    forall n | Canonical(n)
      ensures rt.negate(rt.packI(n)) == rt.packI(-n)
    {
      NegateLaw(n);
    }
    forall n, b | Number(n, b) && Canonical(-n - 1)
      ensures rt.invert(WordOf(rt, n, b)) == C.Ok(rt.packI(-n - 1))
    {
      InvertLaw(n, b);
    }
  }

  // ---- The theorem ----

  // A word of the number Python computes, tagged BOOL or INT as IsBoolWord says, after the same
  // calls in the same order.
  ghost predicate Decodes(r: C.Result, e: Expr, env: Env, world: World, trace: Trace)
    requires WellFormed(e)
  {
    var p, asBool := Eval(e, env, world, trace), IsBoolWord(e, env, world, trace);
    && p.Val? && r.Val? && r.trace == p.trace && TypeOf(r.word) == (if asBool then BOOL else INT)
    && if asBool then UnpackB(r.word) == Truth(p.v) && 0 <= Num(p.v) <= 1 else UnpackI(r.word) == Num(p.v)
  }

  lemma {:induction false} DeliveredDecodes(r: C.Result, e: Expr, env: Env, m: C.Machine, trace: Trace)
    requires m.rt == DuckRuntime() && WellFormed(e) && Delivers(m, r, e, env, trace)
    ensures Decodes(r, e, env, m.world, trace)
  {
    var k, asBool := Num(Eval(e, env, m.world, trace).v), IsBoolWord(e, env, m.world, trace);
    NumberWordFacts(k, asBool);
    if asBool {
      UnpackPackB(k != 0);
    } else {
      A.IntOperand(k);
    }
  }

  lemma CompiledMeansPython(e: Expr, n: nat, env: Env, world: World, order: C.Order, vars: C.Vars, trace: Trace)
    requires WellFormed(e) && OrderSafe(e) && InDomain(e, env, world, trace)
    requires Agree(DuckRuntime(), vars, env, Names(e)) && NoCapture(Names(e), n, Emit(e, n).1)
    ensures Decodes(C.Eval(C.Machine(DuckRuntime(), world, order), Emit(e, n).0, vars, trace), e, env, world, trace)
  {
    DuckRuntimeImplements();
    var m := C.Machine(DuckRuntime(), world, order);
    Preserves(e, n, env, m, vars, trace);
    DeliveredDecodes(C.Eval(m, Emit(e, n).0, vars, trace), e, env, m, trace);
  }

  // For instance `x + 3 < 10`, with x a packed number.
  lemma AnExample(k: int, world: World, order: C.Order, trace: Trace)
    requires Canonical(k) && Canonical(k + 3)
    ensures var c := Emit(Compare(Lt, BinOp(Add, Name("x"), IntConst(3)), IntConst(10)), 0).0;
            C.Eval(C.Machine(DuckRuntime(), world, order), c, map["x" := PackI(k)], trace) ==
            C.Val(PackB(k < 7), trace)
  {
    var sum := BinOp(Add, Name("x"), IntConst(3));
    var e, env := Compare(Lt, sum, IntConst(10)), map["x" := Int(k)];
    DuckRuntimeImplements();
    assert Eval(sum, env, world, trace) == Val(Int(k + 3), trace) && InDomain(sum, env, world, trace);
    assert Eval(e, env, world, trace) == Val(Bool(k < 7), trace) && InDomain(e, env, world, trace);
    Preserves(e, 0, env, C.Machine(DuckRuntime(), world, order), map["x" := PackI(k)], trace);
  }

  // And so does every run in small steps, however the arguments of operators are interleaved: it
  // ends, in such a word.
  lemma CompiledRunsMeanPython(e: Expr, n: nat, env: Env, m: C.Machine, vars: C.Vars, trace: Trace,
                               paths: seq<seq<bool>>)
    requires WellFormed(e) && OrderSafe(e) && InDomain(e, env, m.world, trace) && m.rt == DuckRuntime()
    requires Agree(DuckRuntime(), vars, env, Names(e)) && NoCapture(Names(e), n, Emit(e, n).1)
    requires |paths| >= Interleaving.Nodes(Emit(e, n).0)
    ensures var (k, t) := Interleaving.Run(m, Interleaving.Todo(Emit(e, n).0, vars), trace, paths);
            k.Done? && Decodes(C.Val(k.w, t), e, env, m.world, trace)
  {
    DuckRuntimeImplements();
    Interleaving.EveryRunPreserves(e, n, env, m, vars, trace, paths);
    var (k, t) := Interleaving.Run(m, Interleaving.Todo(Emit(e, n).0, vars), trace, paths);
    DeliveredDecodes(C.Val(k.w, t), e, env, m, trace);
  }

  // `-` emits the integer negation whatever its operand: right exactly on INT words.
  lemma NegationNeedsInt(n: int, asBool: bool)
    requires Number(n, asBool)
    ensures NegateI(NumberWord(n, asBool)) == PackI(-n) <==> !asBool
  {
    if asBool {
      UnpackPackB(n != 0);
      UnpackIFields(BoolWord(n != 0));
      NegateNegates(BoolWord(n != 0));
      BoolWordAsInt(BoolWord(n != 0), n);
      A.IntOperand(-n);
    } else {
      NegateExact(n);
    }
  }

  // Read as an integer, a bool word is a large negative number.
  lemma BoolWordAsInt(w: int, bit: int)
    requires 0 <= bit <= 1 && w == 0xFFF7_0000_0000_0000 + bit
    ensures w / TWO50 % 2 == 1 && w % TWO50 == 0x3_0000_0000_0000 + bit
  {
    DivUnique(w, TWO50, 0x3FFD, 0x3_0000_0000_0000 + bit);
  }
}

/**
 The expression emitter: Python expressions to C trees. `Emit` is the emitter as a function of
 the expression and the counter that names temporaries; the class is the emitter as it runs,
 with the counter as its state and the loop that folds `and` / `or` operands from the right.
 */
module Transpiler {
  import opened Decimals
  import opened Python
  import C = CLang

  // ---- Temporaries ----

  function TempName(n: nat): string {
    "_bop" + Digits(n)
  }

  // It is `_bop` and the decimal number.
  lemma TempNameReads(n: nat)
    ensures var t := TempName(n); |t| > 4 && t[..4] == "_bop" && IsNumeral(t[4..]) && NumberOf(t[4..]) == n
  {
    DigitsReadBack(n);
    assert TempName(n)[4..] == Digits(n);
  }

  lemma TempNamesDiffer(m: nat, n: nat)
    requires m != n
    ensures TempName(m) != TempName(n)
  {
    if TempName(m) == TempName(n) {
      assert TempName(m)[4..] == Digits(m) && TempName(n)[4..] == Digits(n);
      DigitsInjective(m, n);
    }
  }

  // ---- Emission ----

  function Wrap(op: UnaryOp, c: C.CExpr): C.CExpr {
    match op
    case USub => C.NegateI(c)
    case Not => C.PackNotTruthy(c)
    case Invert => C.InvertFn(c)
    case UAdd => c
  }

  function Emit(e: Expr, n: nat): (r: (C.CExpr, nat))
    requires WellFormed(e)
    ensures r.1 >= n
    decreases e, 1
  {
    match e
    case IntConst(k) => (C.PackIntLit(k), n)
    case BoolConst(b) => (C.PackBoolLit(b), n)
    case Name(id) => (C.Var(id), n)
    case Call(f) => (C.CallFn(f), n)
    case BinOp(op, l, r) =>
      var (cl, nl) := Emit(l, n);
      var (cr, nr) := Emit(r, nl);
      (C.Binary(op, cl, cr), nr)
    case Unary(op, o) =>
      if op.USub? && o.IntConst? then (C.PackIntLit(-o.n), n) else
      var (c, n1) := Emit(o, n);
      (Wrap(op, c), n1)
    case BoolOp(isOr, values) =>
      EmitBool(isOr, values, n)
    case Compare(op, l, r) =>
      var (cl, nl) := Emit(l, n);
      var (cr, nr) := Emit(r, nl);
      (C.Compare(op, cl, cr), nr)
  }

  // The last operand is emitted first; then, going left, each operand takes a temporary.
  function EmitBool(isOr: bool, values: seq<Expr>, n: nat): (r: (C.CExpr, nat))
    requires values != [] && forall x | x in values :: WellFormed(x)
    ensures r.1 >= n
    decreases values, 0
  {
    if |values| == 1 then Emit(values[0], n) else
    var (rest, n1) := EmitBool(isOr, values[1..], n);
    var (init, n2) := Emit(values[0], n1 + 1);
    (C.Choose(TempName(n1), init, isOr, rest), n2)
  }

  // ---- Temporaries of an emitted tree ----

  // The temporaries a tree declares, in the order the emitter numbers them.
  function Temps(c: C.CExpr): seq<string> {
    match c
    case Binary(_, l, r) => Temps(l) + Temps(r)
    case Compare(_, l, r) => Temps(l) + Temps(r)
    case NegateI(a) => Temps(a)
    case PackNotTruthy(a) => Temps(a)
    case InvertFn(a) => Temps(a)
    case Choose(temp, init, _, rest) => Temps(rest) + [temp] + Temps(init)
    case _ => []
  }

  // Emitting from n to n' declares exactly the temporaries n, n + 1, .., n' - 1, each once.
  lemma {:induction false} TempsAreCounted(e: Expr, n: nat)
    requires WellFormed(e)
    ensures var (c, n2) := Emit(e, n); Temps(c) == seq(n2 - n, i requires 0 <= i => TempName(n + i))
    decreases e, 1
  {
    match e
    case BinOp(_, l, r) =>
      TempsAreCounted(l, n);
      TempsAreCounted(r, Emit(l, n).1);
    case Unary(_, o) =>
      TempsAreCounted(o, n);
    case BoolOp(isOr, values) =>
      TempsOfOperands(isOr, values, n);
    case Compare(_, l, r) =>
      TempsAreCounted(l, n);
      TempsAreCounted(r, Emit(l, n).1);
    case _ =>
  }

  lemma {:induction false} TempsOfOperands(isOr: bool, values: seq<Expr>, n: nat)
    requires values != [] && forall x | x in values :: WellFormed(x)
    ensures var (c, n2) := EmitBool(isOr, values, n); Temps(c) == seq(n2 - n, i requires 0 <= i => TempName(n + i))
    decreases values, 0
  {
    if |values| == 1 {
      TempsAreCounted(values[0], n);
    } else {
      TempsOfOperands(isOr, values[1..], n);
      TempsAreCounted(values[0], EmitBool(isOr, values[1..], n).1 + 1);
    }
  }

  lemma TempsAreDistinct(e: Expr, n: nat)
    requires WellFormed(e)
    ensures var ts := Temps(Emit(e, n).0); forall i, j :: 0 <= i < j < |ts| ==> ts[i] != ts[j]
  {
    TempsAreCounted(e, n);
    var ts := Temps(Emit(e, n).0);
    forall i, j | 0 <= i < j < |ts|
      ensures ts[i] != ts[j]
    {
      TempNamesDiffer(n + i, n + j);
    }
  }

  class Emitter {
    var counter: nat

    constructor ()
      ensures counter == 0
    {
      counter := 0;
    }

    method ExprStr(e: Expr) returns (c: C.CExpr)
      requires WellFormed(e)
      modifies this
      ensures (c, counter) == Emit(e, old(counter))
      decreases e
    {
      match e {
        case IntConst(k) => c := C.PackIntLit(k);
        case BoolConst(b) => c := C.PackBoolLit(b);
        case Name(id) => c := C.Var(id);
        case Call(f) => c := C.CallFn(f);
        case BinOp(op, l, r) =>
          var cl := ExprStr(l);
          var cr := ExprStr(r);
          c := C.Binary(op, cl, cr);
        case Unary(op, o) =>
          if op.USub? && o.IntConst? {
            c := C.PackIntLit(-o.n);
            return;
          }
          c := ExprStr(o);
          match op {
            case USub => c := C.NegateI(c);
            case Not => c := C.PackNotTruthy(c);
            case Invert => c := C.InvertFn(c);
            case UAdd =>
          }
        case BoolOp(isOr, values) =>
          c := FoldOperands(isOr, values);
        case Compare(op, l, r) =>
          var cl := ExprStr(l);
          var cr := ExprStr(r);
          c := C.Compare(op, cl, cr);
      }
    }

    method FoldOperands(isOr: bool, values: seq<Expr>) returns (c: C.CExpr)
      requires values != [] && forall x | x in values :: WellFormed(x)
      modifies this
      ensures (c, counter) == EmitBool(isOr, values, old(counter))
      decreases values
    {
      var i := |values| - 1;
      c := ExprStr(values[i]);
      assert values[i..] == [values[i]];
      while i > 0
        invariant 0 <= i < |values|
        invariant (c, counter) == EmitBool(isOr, values[i..], old(counter))
      {
        i := i - 1;
        assert values[i..][1..] == values[i + 1..];
        var temp := TempName(counter);
        counter := counter + 1;
        var init := ExprStr(values[i]);
        c := C.Choose(temp, init, isOr, c);
      }
      assert values[0..] == values;
    }
  }
}

/**
 The runtime's operators on words: dispatch on the two tags, BOOL and None read as integers,
 and Python's operators computed with C's on int64_t. This is the runtime library the emitted
 C trees call.
 */
module Arithmetic {
  import opened Bits
  import opened Duckbox
  import opened CLang
  import Python

  // ---- Casts and truth ----

  ghost function CastI(duck: Duck): Outcome {
    match TypeOf(duck)
    case FLOAT => Elsewhere
    case INT => Ok(duck)
    case UINT => Ok(PackI(Signed(UnpackU(duck))))
    case BOOL => Ok(PackI(if UnpackB(duck) then 1 else 0))
    case NONE => Ok(PackI(0))
    case BIGINT => Ok(duck)
    case _ => Panic
  }

  ghost function CastB(duck: Duck): Outcome {
    match TypeOf(duck)
    case FLOAT => Elsewhere
    case INT => Ok(PackB(UnpackI(duck) != 0))
    case UINT => Ok(PackB(UnpackU(duck) != 0))
    case BOOL => Ok(duck)
    case NONE => Ok(PackB(false))
    case NAN => Ok(PackB(false))
    case _ => Panic
  }

  // A FLOAT is true when it is neither of the two zeros.
  ghost predicate Truthy(duck: Duck) {
    match TypeOf(duck)
    case FLOAT => duck != 0 && duck != LARGE_BIT
    case INT => WordOp(And, duck, 0x0007_FFFF_FFFF_FFFF) != 0
    case UINT => WordOp(And, duck, 0x0007_FFFF_FFFF_FFFF) != 0
    case BOOL => WordOp(And, duck, 1) != 0
    case NONE => false
    case NAN => false
    case _ => true
  }

  // ---- C integer division ----

  // `/` truncates toward zero and `%` takes the sign of the dividend, section 6.5.5 of C11.
  function TruncDiv(a: int, b: int): int
    requires b != 0
  {
    if (a < 0) == (b < 0) then Abs(a) / Abs(b) else -(Abs(a) / Abs(b))
  }

  function TruncRem(a: int, b: int): int
    requires b != 0
  {
    a - b * TruncDiv(a, b)
  }

  // ---- Operators ----

  ghost function Pack(i: int): Outcome {
    if FitsInt64(i) then Ok(PackI(i)) else Undefined
  }

  ghost predicate SignsDiffer(a: Int64, b: Int64) {
    SignedOp(Xor, a, b) < 0
  }

  // The integer expression each operator is generated with.
  ghost function IntExpr(op: Python.BinaryOp, a: Int64, b: Int64): Outcome {
    match op
    case Add => Pack(a + b)
    case Sub => Pack(a - b)
    case Mult => Pack(a * b)
    case FloorDiv =>
      if b == 0 then Undefined
      else Pack(TruncDiv(a, b) - if TruncRem(a, b) != 0 && SignsDiffer(a, b) then 1 else 0)
    case Mod =>
      if b == 0 then Undefined
      else Pack(TruncRem(a, b) + if TruncRem(a, b) != 0 && SignsDiffer(a, b) then b else 0)
    case BitAnd => Pack(SignedOp(And, a, b))
    case BitOr => Pack(SignedOp(Or, a, b))
    case BitXor => Pack(SignedOp(Xor, a, b))
    case LShift => if a < 0 || !(0 <= b < 64) then Undefined else Pack(a * Pow2(b))
    case RShift => if !(0 <= b < 64) then Undefined else Pack(a / Pow2(b))
  }

  // And each comparison.
  predicate CompareExpr(op: Python.CompareOp, a: int, b: int) {
    match op
    case Eq => a == b
    case NotEq => a != b
    case Lt => a < b
    case LtE => a <= b
    case Gt => a > b
    case GtE => a >= b
  }

  // BOOL and None become INT words, everything else stays.
  ghost function Operand(duck: Duck): Duck {
    if TypeOf(duck) == BOOL || TypeOf(duck) == NONE then CastI(duck).word else duck
  }

  ghost predicate IsInteger(duck: Duck) {
    TypeOf(duck) == INT || TypeOf(duck) == UINT
  }

  predicate IsBitwise(op: Python.BinaryOp) {
    op.BitAnd? || op.BitOr? || op.BitXor? || op.LShift? || op.RShift?
  }

  // Concatenation and repetition, which only `+` and `*` know.
  ghost predicate IsHeapCase(op: Python.BinaryOp, a: Duck, b: Duck) {
    var ta, tb := TypeOf(a), TypeOf(b);
    || (op.Add? && ta == tb && (ta == STR || ta == LIST))
    || (op.Mult? && (ta == STR || ta == LIST) && IsInteger(b))
    || (op.Mult? && (tb == STR || tb == LIST) && IsInteger(a))
  }

  ghost function Binary(op: Python.BinaryOp, x: Duck, y: Duck): Outcome {
    var a, b := Operand(x), Operand(y);
    if !IsBitwise(op) && (TypeOf(a) == FLOAT || TypeOf(b) == FLOAT) then Elsewhere
    else if IsInteger(a) && IsInteger(b) then IntExpr(op, UnpackI(a), UnpackI(b))
    else if IsHeapCase(op, a, b) then Elsewhere
    else Panic
  }

  ghost function Compare(op: Python.CompareOp, x: Duck, y: Duck): Outcome {
    var a, b := Operand(x), Operand(y);
    if TypeOf(a) == FLOAT || TypeOf(b) == FLOAT then Elsewhere
    else if IsInteger(a) && IsInteger(b) then Ok(PackB(CompareExpr(op, UnpackI(a), UnpackI(b))))
    else Panic
  }

  ghost function Invert(x: Duck): Outcome {
    var a := Operand(x);
    if IsInteger(a) then Ok(PackI(Signed(Complement(Unsigned(UnpackI(a)))))) else Panic
  }

  ghost function AbsDuck(duck: Duck): Outcome {
    if TypeOf(duck) == BOOL then Ok(duck)
    else if IsInteger(duck) then Ok(WordOp(And, duck, Complement(TWO50)))
    else if TypeOf(duck) == FLOAT then Ok(WordOp(And, duck, Complement(LARGE_BIT)))
    else Panic
  }

  // ---- Floor division and modulo ----

  lemma TruncLaw(a: int, b: int)
    requires b != 0
    ensures a == b * TruncDiv(a, b) + TruncRem(a, b)
    ensures Abs(TruncRem(a, b)) < Abs(b)
    ensures TruncRem(a, b) == 0 || (TruncRem(a, b) < 0 <==> a < 0)
  {
    var q, r := Abs(a) / Abs(b), Abs(a) % Abs(b);
    assert Abs(a) == Abs(b) * q + r;
    if b < 0 {
      assert b * q == -(Abs(b) * q) && b * -q == Abs(b) * q;
    } else {
      assert b * -q == -(Abs(b) * q);
    }
  }

  lemma SignsDifferMeans(a: Int64, b: Int64)
    ensures SignsDiffer(a, b) <==> (a < 0) != (b < 0)
  {
    SignedOpIsBitwise(Xor, a, b);
    BitwiseSign(Xor, a, b);
  }

  // Truncating division, corrected where the signs differ, is Python's floor division.
  lemma FloorFromTrunc(a: int, b: int)
    requires b != 0
    ensures var fix := TruncRem(a, b) != 0 && (a < 0) != (b < 0);
            && TruncDiv(a, b) - (if fix then 1 else 0) == Python.PyFloorDiv(a, b)
            && TruncRem(a, b) + (if fix then b else 0) == Python.PyMod(a, b)
  {
    TruncLaw(a, b);
    var q, r := TruncDiv(a, b), TruncRem(a, b);
    if r != 0 && (a < 0) != (b < 0) {
      assert b * (q - 1) == b * q - b;
      Python.FloorLawUnique(a, b, q - 1, r + b);
    } else {
      Python.FloorLawUnique(a, b, q, r);
    }
  }

  lemma FloorBounds(a: int, b: int)
    requires b != 0 && Canonical(a) && Canonical(b)
    ensures Canonical(Python.PyFloorDiv(a, b)) && Canonical(Python.PyMod(a, b))
  {
    Python.FloorLawHolds(a, b);
    var q := Python.PyFloorDiv(a, b);
    if b > 0 {
      QuotientBound(a, b);
    } else {
      QuotientBound(-a, -b);
    }
  }

  lemma QuotientBound(a: int, b: int)
    requires b > 0
    ensures -(Abs(a) as int) <= a / b <= Abs(a)
  {
    if a >= 0 {
      DivShrinks(a, b);
    } else {
      var m := -a - 1;
      DivShrinks(m, b);
      assert b * (-(m / b) - 1) == -(b * (m / b)) - b;
      DivUnique(a, b, -(m / b) - 1, b - 1 - m % b);
    }
  }

  // For all words of canonical integers a and b, b not zero: the two results satisfy
  // Python's law, and repacking them loses nothing.
  lemma FloorDivAndMod(a: int, b: int) returns (q: int, r: int)
    requires Canonical(a) && Canonical(b) && b != 0
    ensures Canonical(q) && Canonical(r) && Python.FloorLaw(a, b, q, r)
    ensures Binary(Python.FloorDiv, PackI(a), PackI(b)) == Ok(PackI(q)) && UnpackI(PackI(q)) == q
    ensures Binary(Python.Mod, PackI(a), PackI(b)) == Ok(PackI(r)) && UnpackI(PackI(r)) == r
  {
    Python.FloorLawHolds(a, b);
    q, r := FloorExpr(a, b);
    IntOperand(q);
    IntOperand(r);
    BinaryOfWords(Python.FloorDiv, PackI(a), a, PackI(b), b);
    BinaryOfWords(Python.Mod, PackI(a), a, PackI(b), b);
  }

  lemma FloorExpr(a: int, b: int) returns (q: int, r: int)
    requires Canonical(a) && Canonical(b) && b != 0
    ensures q == Python.PyFloorDiv(a, b) && r == Python.PyMod(a, b)
    ensures Canonical(q) && Canonical(r)
    ensures IntExpr(Python.FloorDiv, a, b) == Ok(PackI(q))
    ensures IntExpr(Python.Mod, a, b) == Ok(PackI(r))
  {
    q, r := Python.PyFloorDiv(a, b), Python.PyMod(a, b);
    SignsDifferMeans(a, b);
    FloorFromTrunc(a, b);
    FloorBounds(a, b);
  }

  // What the operators need to know of an operand: the number it stands for.
  lemma IntOperand(a: int)
    requires Canonical(a)
    ensures Operand(PackI(a)) == PackI(a) && IsInteger(PackI(a)) && UnpackI(PackI(a)) == a
    ensures TypeOf(PackI(a)) == INT
  {
    UnpackPackI(a);
  }

  lemma BoolOperand(b: bool)
    ensures Operand(PackB(b)) == PackI(if b then 1 else 0)
  {
    UnpackPackB(b);
  }

  // The word of a number: of an integer, also an unsigned one below 2^50, of a Boolean, or None, which
  // counts as 0.
  ghost predicate Carries(w: Duck, n: int) {
    || (Canonical(n) && w == PackI(n)) || (0 <= n < TWO50 && w == PackU(n))
    || (w == PackB(true) && n == 1) || (w == PackB(false) && n == 0) || (w == PackN() && n == 0)
  }

  lemma CarriedOperand(w: Duck, n: int)
    requires Carries(w, n)
    ensures Canonical(n) && IsInteger(Operand(w)) && UnpackI(Operand(w)) == n
  {
    PackNIsNone();
    BoolOperand(true);
    BoolOperand(false);
    IntOperand(n);
    if 0 <= n < TWO50 && w == PackU(n) {
      UnpackPackU(n);
      UIntReadAsInt(n);
    }
  }

  // The operators and comparisons depend on the numbers alone.
  lemma BinaryOfWords(op: Python.BinaryOp, x: Duck, a: int, y: Duck, b: int)
    requires Carries(x, a) && Carries(y, b)
    ensures Canonical(a) && Canonical(b) && Binary(op, x, y) == IntExpr(op, a, b)
  {
    CarriedOperand(x, a);
    CarriedOperand(y, b);
    BinaryOfIntegers(op, x, y);
  }

  lemma BinaryOfIntegers(op: Python.BinaryOp, x: Duck, y: Duck)
    requires IsInteger(Operand(x)) && IsInteger(Operand(y))
    ensures Binary(op, x, y) == IntExpr(op, UnpackI(Operand(x)), UnpackI(Operand(y)))
  {
  }

  lemma CompareOfWords(op: Python.CompareOp, x: Duck, a: int, y: Duck, b: int)
    requires Carries(x, a) && Carries(y, b)
    ensures Canonical(a) && Canonical(b) && Compare(op, x, y) == Ok(PackB(CompareExpr(op, a, b)))
  {
    CarriedOperand(x, a);
    CarriedOperand(y, b);
    CompareOfIntegers(op, x, y);
  }

  lemma CompareOfIntegers(op: Python.CompareOp, x: Duck, y: Duck)
    requires IsInteger(Operand(x)) && IsInteger(Operand(y))
    ensures Compare(op, x, y) == Ok(PackB(CompareExpr(op, UnpackI(Operand(x)), UnpackI(Operand(y)))))
  {
  }

  // ---- Bitwise operators ----

  lemma Pow50()
    ensures Pow2(50) == TWO50
  {
    Pow2Values();
  }

  lemma PackedResult(x: int)
    requires -TWO50 <= x < TWO50
    ensures TypeOf(PackI(x)) == INT && (UnpackI(PackI(x)) == x <==> x != -TWO50)
    ensures x == -TWO50 ==> PackI(x) == IntWord(true, 0) && UnpackI(PackI(x)) == 0
  {
    UnpackPackI(x);
    NegativeZero(x);
  }

  // The word decodes to Python's answer except when that answer is -2^50, the one result
  // outside the magnitude field; it then decodes to 0.
  lemma BitwiseExact(op: Python.BinaryOp, a: int, b: int)
    requires op.BitAnd? || op.BitOr? || op.BitXor?
    requires Canonical(a) && Canonical(b)
    ensures var r, x := Binary(op, PackI(a), PackI(b)), Python.IntOp(op, a, b);
            && -TWO50 <= x < TWO50 && r == Ok(PackI(x)) && TypeOf(r.word) == INT
            && (UnpackI(r.word) == x <==> x != -TWO50)
            && (x == -TWO50 ==> r.word == IntWord(true, 0) && UnpackI(r.word) == 0)
  {
    BinaryOfWords(op, PackI(a), a, PackI(b), b);
    BitwiseExpr(op, a, b);
    PackedResult(Python.IntOp(op, a, b));
  }

  lemma BitwiseExpr(op: Python.BinaryOp, a: int, b: int)
    requires op.BitAnd? || op.BitOr? || op.BitXor?
    requires Canonical(a) && Canonical(b)
    ensures -TWO50 <= Python.IntOp(op, a, b) < TWO50
    ensures IntExpr(op, a, b) == Ok(PackI(Python.IntOp(op, a, b)))
  {
    var bop := if op.BitAnd? then And else if op.BitOr? then Or else Xor;
    SignedOpIsBitwise(bop, a, b);
    Pow50();
    BitwiseRange(bop, a, b, 50);
  }

  // `|` never produces -2^50; `&`, `^` and `~` do.
  lemma OrStaysCanonical(a: int, b: int)
    requires Canonical(a) && Canonical(b)
    ensures Canonical(Bitwise(Or, a, b))
  {
    Pow50();
    BitwiseRange(Or, a, b, 50);
    if Bitwise(Or, a, b) == -TWO50 {
      OrOfMultiple(a, b);
      BitwiseSign(Or, 0, 0);
      assert false;
    }
  }

  lemma OrOfMultiple(a: int, b: int)
    requires Canonical(a) && Canonical(b) && Bitwise(Or, a, b) % TWO50 == 0
    ensures a == 0 && b == 0
  {
    Pow50();
    BitwiseLow(Or, a, b, 50);
    OrIsZero(a % TWO50, b % TWO50);
    OnlyMultiple(a);
    OnlyMultiple(b);
  }

  lemma OnlyMultiple(a: int)
    requires Canonical(a) && a % TWO50 == 0
    ensures a == 0
  {
  }

  lemma {:induction false} OrIsZero(a: nat, b: nat)
    requires Bitwise(Or, a, b) == 0
    ensures a == 0 && b == 0
    decreases a + b
  {
    BitwiseStep(Or, a, b);
    if a + b > 0 {
      OrIsZero(a / 2, b / 2);
    }
  }

  lemma AndLeavesTheRange()
    ensures Bitwise(And, 1 - TWO50, -2) == -TWO50
  {
    BitwiseStep(And, 1 - TWO50, -2);
    AndOnes(-(TWO50 / 2));
  }

  lemma XorLeavesTheRange()
    ensures Bitwise(Xor, TWO50 - 1, -1) == -TWO50
  {
    XorOnes(TWO50 - 1);
  }

  lemma {:induction false} AndOnes(a: int)
    ensures Bitwise(And, a, -1) == a
    decreases Abs(a)
  {
    if !(-1 <= a <= 0) {
      AndOnes(a / 2);
    }
  }

  lemma ComplementIsInvert(i: Int64)
    ensures Signed(Complement(Unsigned(i))) == -1 - i
  {
  }

  // `~` is exact except at 2^50 - 1.
  lemma InvertExact(x: Duck, a: int)
    requires Carries(x, a)
    ensures var r := Invert(x);
            && r == Ok(PackI(-a - 1)) && TypeOf(r.word) == INT
            && (UnpackI(r.word) == -a - 1 <==> a != TWO50 - 1)
  {
    CarriedOperand(x, a);
    InvertOperand(x, a);
    InverseWord(a);
  }

  lemma InvertOperand(x: Duck, a: int)
    requires Canonical(a) && IsInteger(Operand(x)) && UnpackI(Operand(x)) == a
    ensures Invert(x) == Ok(PackI(-a - 1))
  {
    ComplementIsInvert(a);
  }

  lemma InverseWord(a: int)
    requires Canonical(a)
    ensures TypeOf(PackI(-a - 1)) == INT && (UnpackI(PackI(-a - 1)) == -a - 1 <==> a != TWO50 - 1)
  {
    UnpackPackI(-a - 1);
  }

  // ---- Every operator, on the numbers two words stand for ----

  // Within the canonical range C gives Python's answer, for every operator.
  lemma BinaryExact(op: Python.BinaryOp, x: Duck, a: int, y: Duck, b: int)
    requires Carries(x, a) && Carries(y, b)
    requires Python.Defined(op, a, b) && Canonical(Python.IntOp(op, a, b))
    requires op.LShift? ==> a >= 0
    requires op.LShift? || op.RShift? ==> b < 64
    ensures Binary(op, x, y) == Ok(PackI(Python.IntOp(op, a, b)))
  {
    BinaryOfWords(op, x, a, y, b);
    ExprExact(op, a, b);
  }

  lemma ExprExact(op: Python.BinaryOp, a: int, b: int)
    requires Canonical(a) && Canonical(b)
    requires Python.Defined(op, a, b) && Canonical(Python.IntOp(op, a, b))
    requires op.LShift? ==> a >= 0
    requires op.LShift? || op.RShift? ==> b < 64
    ensures IntExpr(op, a, b) == Ok(PackI(Python.IntOp(op, a, b)))
  {
    match op
    case FloorDiv => var _, _ := FloorExpr(a, b);
    case Mod => var _, _ := FloorExpr(a, b);
    case BitAnd => BitwiseExpr(op, a, b);
    case BitOr => BitwiseExpr(op, a, b);
    case BitXor => BitwiseExpr(op, a, b);
    case RShift => FloorBoundsShift(a, b);
    case _ =>
  }

  // And for every comparison.
  lemma CompareExact(op: Python.CompareOp, x: Duck, a: int, y: Duck, b: int)
    requires Carries(x, a) && Carries(y, b)
    ensures Compare(op, x, y) == Ok(PackB(Python.CompareInts(op, a, b)))
  {
    CompareOfWords(op, x, a, y, b);
  }

  lemma FloorBoundsShift(a: int, b: nat)
    requires Canonical(a)
    ensures Canonical(a / Pow2(b))
  {
    QuotientBound(a, Pow2(b));
  }

  // ---- What the library computes, on packed words ----

  lemma ComparisonOfWords(op: Python.CompareOp, x: Duck, a: int, y: Duck, b: int)
    requires Carries(x, a) && Carries(y, b)
    ensures Compare(op, x, y) == Ok(PackB(match op
                                          case Eq => a == b
                                          case NotEq => a != b
                                          case Lt => a < b
                                          case LtE => a <= b
                                          case Gt => a > b
                                          case GtE => a >= b))
  {
    CompareOfWords(op, x, a, y, b);
  }

  // Sums and differences always fit 64 bits; a product may not.
  lemma SumsOfWords(x: Duck, a: int, y: Duck, b: int)
    requires Carries(x, a) && Carries(y, b)
    ensures Binary(Python.Add, x, y) == Ok(PackI(a + b)) && Binary(Python.Sub, x, y) == Ok(PackI(a - b))
  {
    BinaryOfWords(Python.Add, x, a, y, b);
    BinaryOfWords(Python.Sub, x, a, y, b);
  }

  lemma ProductOfWords(x: Duck, a: int, y: Duck, b: int)
    requires Carries(x, a) && Carries(y, b)
    ensures Binary(Python.Mult, x, y) == if -TWO63 <= a * b < TWO63 then Ok(PackI(a * b)) else Undefined
  {
    BinaryOfWords(Python.Mult, x, a, y, b);
  }

  lemma QuotientsOfWords(x: Duck, a: int, y: Duck, b: int) returns (q: int, r: int)
    requires Carries(x, a) && Carries(y, b) && b != 0
    ensures Canonical(q) && Binary(Python.FloorDiv, x, y) == Ok(PackI(q))
    ensures Canonical(r) && Binary(Python.Mod, x, y) == Ok(PackI(r))
    ensures a == b * q + r && if b > 0 then 0 <= r < b else b < r <= 0
  {
    BinaryOfWords(Python.FloorDiv, x, a, y, b);
    BinaryOfWords(Python.Mod, x, a, y, b);
    q, r := LawfulExpr(a, b);
  }

  lemma LawfulExpr(a: int, b: int) returns (q: int, r: int)
    requires Canonical(a) && Canonical(b) && b != 0
    ensures Canonical(q) && IntExpr(Python.FloorDiv, a, b) == Ok(PackI(q))
    ensures Canonical(r) && IntExpr(Python.Mod, a, b) == Ok(PackI(r))
    ensures a == b * q + r && if b > 0 then 0 <= r < b else b < r <= 0
  {
    Python.FloorLawHolds(a, b);
    q, r := FloorExpr(a, b);
    Python.FloorLawMeans(a, b, q, r);
  }

  lemma DivisionByZero(op: Python.BinaryOp, x: Duck, a: int, y: Duck)
    requires (op.FloorDiv? || op.Mod?) && Carries(x, a) && Carries(y, 0)
    ensures Binary(op, x, y) == Undefined
  {
    BinaryOfWords(op, x, a, y, 0);
  }

  lemma ShiftsOfWords(x: Duck, a: int, y: Duck, b: int) returns (up: int, down: int)
    requires Carries(x, a) && Carries(y, b) && 0 <= b < 64
    ensures up == a * Pow2(b)
    ensures Binary(Python.LShift, x, y) == if 0 <= up < TWO63 then Ok(PackI(up)) else Undefined
    ensures Canonical(down) && Binary(Python.RShift, x, y) == Ok(PackI(down))
    ensures Pow2(b) * down <= a < Pow2(b) * down + Pow2(b)
  {
    BinaryOfWords(Python.LShift, x, a, y, b);
    BinaryOfWords(Python.RShift, x, a, y, b);
    up, down := ShiftExpr(a, b);
  }

  lemma ShiftExpr(a: int, b: int) returns (up: int, down: int)
    requires Canonical(a) && 0 <= b < 64
    ensures up == a * Pow2(b)
    ensures IntExpr(Python.LShift, a, b) == if 0 <= up < TWO63 then Ok(PackI(up)) else Undefined
    ensures Canonical(down) && IntExpr(Python.RShift, a, b) == Ok(PackI(down))
    ensures Pow2(b) * down <= a < Pow2(b) * down + Pow2(b)
  {
    up, down := a * Pow2(b), a / Pow2(b);
    FloorBoundsShift(a, b);
    Python.QuotientBelow(a, Pow2(b));
    SameSign(a, Pow2(b));
  }

  lemma WideShift(op: Python.BinaryOp, x: Duck, a: int, y: Duck, b: int)
    requires (op.LShift? || op.RShift?) && Carries(x, a) && Carries(y, b) && !(0 <= b < 64)
    ensures Binary(op, x, y) == Undefined
  {
    BinaryOfWords(op, x, a, y, b);
  }

  lemma SameSign(a: int, p: int)
    requires p > 0
    ensures a < 0 <==> a * p < 0
  {
  }

  // Bit by bit, on two's complement.
  lemma BitsOfWords(op: Python.BinaryOp, x: Duck, a: int, y: Duck, b: int) returns (n: int)
    requires op.BitAnd? || op.BitOr? || op.BitXor?
    requires Carries(x, a) && Carries(y, b)
    ensures -TWO50 <= n < TWO50 && Binary(op, x, y) == Ok(PackI(n))
    ensures forall k: nat {:trigger BitAt(n, k)} ::
              BitAt(n, k) == 1 <==>
                match op
                case BitAnd => BitAt(a, k) == 1 && BitAt(b, k) == 1
                case BitOr => BitAt(a, k) == 1 || BitAt(b, k) == 1
                case _ => BitAt(a, k) != BitAt(b, k)
  {
    BinaryOfWords(op, x, a, y, b);
    BitwiseExpr(op, a, b);
    n := Python.IntOp(op, a, b);
    forall k: nat
      ensures BitAt(n, k) == 1 <==>
                match op
                case BitAnd => BitAt(a, k) == 1 && BitAt(b, k) == 1
                case BitOr => BitAt(a, k) == 1 || BitAt(b, k) == 1
                case _ => BitAt(a, k) != BitAt(b, k)
    {
      BitwiseTable(a, b, k);
    }
  }

  // ---- The dispatch on references ----

  // With a double the arithmetic and the comparisons go to the float branch; bitwise operators refuse it.
  lemma DoublesDispatch(op: Python.BinaryOp, cop: Python.CompareOp, d: Duck, w: Duck)
    requires TypeOf(d) == FLOAT
    ensures Compare(cop, d, w) == Elsewhere && Compare(cop, w, d) == Elsewhere
    ensures var r := if op in [Python.BitAnd, Python.BitOr, Python.BitXor, Python.LShift, Python.RShift] then Panic
                     else Elsewhere;
            Binary(op, d, w) == r && Binary(op, w, d) == r
  {
  }

  // `+` takes two strings or two lists, and no other operands of which one is a reference.
  lemma AddDispatches(t: Tag, id: UInt16, offset: UInt32, u: Tag, id': UInt16, offset': UInt32)
    requires IsRef(t) && IsRef(u)
    ensures var r := Binary(Python.Add, PackRef(t, id, offset), PackRef(u, id', offset'));
            if (t == STR && u == STR) || (t == LIST && u == LIST) then r == Elsewhere else r == Panic
  {
    RefRoundTrip(t, id, offset);
    RefRoundTrip(u, id', offset');
  }

  // `*` takes a string or a list and a number, in either order.
  lemma MultDispatches(t: Tag, id: UInt16, offset: UInt32, w: Duck, n: int)
    requires IsRef(t) && Carries(w, n)
    ensures var r := PackRef(t, id, offset);
            && Binary(Python.Mult, r, w) == (if t == STR || t == LIST then Elsewhere else Panic)
            && Binary(Python.Mult, w, r) == (if t == STR || t == LIST then Elsewhere else Panic)
  {
    CarriedOperand(w, n);
    RefRoundTrip(t, id, offset);
    RefWithInteger(Python.Mult, PackRef(t, id, offset), w);
  }

  // All other operators and the comparisons refuse references.
  lemma ReferencesRefused(op: Python.BinaryOp, cop: Python.CompareOp, t: Tag, id: UInt16, offset: UInt32, w: Duck,
                          n: int)
    requires IsRef(t) && Carries(w, n)
    ensures var r := PackRef(t, id, offset);
            && Compare(cop, r, w) == Panic && Compare(cop, w, r) == Panic
            && (op != Python.Mult ==> Binary(op, r, w) == Panic && Binary(op, w, r) == Panic)
  {
    CarriedOperand(w, n);
    RefRoundTrip(t, id, offset);
    RefWithInteger(op, PackRef(t, id, offset), w);
    RefNotCompared(cop, PackRef(t, id, offset), w);
  }

  lemma RefWithInteger(op: Python.BinaryOp, r: Duck, w: Duck)
    requires IsRef(TypeOf(r)) && IsInteger(Operand(w))
    ensures var o := if op == Python.Mult && (TypeOf(r) == STR || TypeOf(r) == LIST) then Elsewhere else Panic;
            Binary(op, r, w) == o && Binary(op, w, r) == o
  {
    RefFirst(op, r, w);
    RefSecond(op, r, w);
  }

  lemma RefFirst(op: Python.BinaryOp, r: Duck, w: Duck)
    requires IsRef(TypeOf(r)) && IsInteger(Operand(w))
    ensures Binary(op, r, w) ==
            if op == Python.Mult && (TypeOf(r) == STR || TypeOf(r) == LIST) then Elsewhere else Panic
  {
  }

  lemma RefSecond(op: Python.BinaryOp, r: Duck, w: Duck)
    requires IsRef(TypeOf(r)) && IsInteger(Operand(w))
    ensures Binary(op, w, r) ==
            if op == Python.Mult && (TypeOf(r) == STR || TypeOf(r) == LIST) then Elsewhere else Panic
  {
  }

  lemma RefNotCompared(cop: Python.CompareOp, r: Duck, w: Duck)
    requires IsRef(TypeOf(r)) && IsInteger(Operand(w))
    ensures Compare(cop, r, w) == Panic && Compare(cop, w, r) == Panic
  {
  }

  // ---- Truth, casts, absolute value ----

  lemma TruthField(w: Duck)
    requires IsInteger(w)
    ensures Truthy(w) <==> w % TWO51 != 0
  {
    PlaceIsPow2(51, TWO51);
    AndLow(w, 0x0007_FFFF_FFFF_FFFF, 51);
  }

  // What each word is cast to, and whether it is true in a condition.
  lemma CastsOfInteger(n: int)
    requires Canonical(n)
    ensures CastI(PackI(n)) == Ok(PackI(n)) && CastB(PackI(n)) == Ok(PackB(n != 0)) && (Truthy(PackI(n)) <==> n != 0)
  {
    IntOperand(n);
    TruthOfInt(n);
  }

  lemma CastsOfConstants(b: bool)
    ensures CastI(PackB(b)) == Ok(PackI(if b then 1 else 0)) && CastB(PackB(b)) == Ok(PackB(b)) && Truthy(PackB(b)) == b
    ensures CastI(PackN()) == Ok(PackI(0)) && CastB(PackN()) == Ok(PackB(false)) && !Truthy(PackN())
  {
    PackNIsNone();
    UnpackPackB(b);
    TruthOfBool(b);
  }

  // A UINT word is reduced to 51 bits, and what its packed integer keeps of them is UnpackPackI.
  lemma CastsOfUInt(u: Word)
    ensures CastI(PackU(u)) == Ok(PackI(u % TWO51)) && CastB(PackU(u)) == Ok(PackB(u % TWO51 != 0))
    ensures Truthy(PackU(u)) <==> u % TWO51 != 0
  {
    UnpackPackU(u);
    PackUFields(u);
    TruthField(PackU(u));
    assert PackU(u) % TWO51 == u % TWO51;
  }

  // References cannot be cast, but for a big integer to an integer, and are true.
  lemma CastsOfReference(t: Tag, id: UInt16, offset: UInt32)
    requires IsRef(t)
    ensures var w := PackRef(t, id, offset);
            && CastI(w) == (if t == BIGINT then Ok(w) else Panic)
            && CastB(w) == Panic && Truthy(w)
  {
    RefRoundTrip(t, id, offset);
  }

  lemma CastsOfNaN(w: Duck)
    requires TypeOf(w) == NAN
    ensures CastI(w) == Panic && CastB(w) == Ok(PackB(false)) && !Truthy(w) && AbsDuck(w) == Panic
  {
  }

  // A double is true unless it is one of the two zeros.
  lemma TruthOfDouble(d: Word)
    requires TypeOf(d) == FLOAT
    ensures Truthy(d) <==> d % TWO63 != 0
  {
  }

  // `if x` and `bool(x)` agree on an INT word unless it is the negative zero.
  lemma TruthAgreesWithCast(w: Duck)
    requires TypeOf(w) == INT
    ensures CastB(w).Ok?
    ensures Truthy(w) == UnpackB(CastB(w).word) <==> w != IntWord(true, 0)
  {
    TruthField(w);
    UnpackPackB(UnpackI(w) != 0);
    var negative, mag := IntWordShape(w);
    IntWordFields(negative, mag);
    LowOfIntWord(negative, mag);
  }

  lemma LowOfIntWord(negative: bool, mag: int)
    requires 0 <= mag < TWO50
    ensures IntWord(negative, mag) % TWO51 == (if negative then TWO50 else 0) + mag
  {
  }

  lemma TruthOfInt(a: int)
    requires Canonical(a)
    ensures Truthy(PackI(a)) <==> a != 0
  {
    IntOperand(a);
    PackICanonical(a);
    TruthField(PackI(a));
    LowOfIntWord(a < 0, Abs(a));
  }

  lemma TruthOfBool(b: bool)
    ensures Truthy(PackB(b)) <==> b
  {
    UnpackPackB(b);
    LowFields(PackB(b));
  }

  // Clearing bit 50 of an INT word takes the absolute value.
  lemma AbsExact(a: int)
    requires Canonical(a)
    ensures AbsDuck(PackI(a)) == Ok(PackI(Abs(a)))
  {
    IntOperand(a);
    PackICanonical(a);
    PackICanonical(Abs(a));
    ClearSign(a < 0, Abs(a));
  }

  // Booleans stay, a UINT word loses its bit 50, a double its sign, and nothing else has one.
  lemma AbsOfOthers(b: bool, u: Word, d: Word)
    ensures AbsDuck(PackB(b)) == Ok(PackB(b)) && AbsDuck(PackU(u)) == Ok(PackU(u % TWO50)) && AbsDuck(PackN()) == Panic
    ensures TypeOf(d) == FLOAT ==> AbsDuck(d) == Ok(d % TWO63)
  {
    UnpackPackB(b);
    PackNIsNone();
    UnpackPackU(u);
    ClearBit(PackU(u), 50, TWO50);
    ClearBit(d, 63, TWO63);
    PackUFields(u);
    PackUFields(u % TWO50);
    ClearedUInt(PackU(u), u);
  }

  lemma AbsOfReference(t: Tag, id: UInt16, offset: UInt32)
    requires IsRef(t)
    ensures AbsDuck(PackRef(t, id, offset)) == Panic
  {
    RefRoundTrip(t, id, offset);
  }

  lemma ClearedUInt(w: int, u: int)
    requires 0 <= u && w == 0xFFF8_0000_0000_0000 + u % TWO51
    ensures w - w / TWO50 % 2 * TWO50 == 0xFFF8_0000_0000_0000 + u % TWO50 % TWO51
  {
    SplitUInt(w, u % TWO51);
    assert u % TWO51 == u % TWO51 / TWO50 * TWO50 + u % TWO51 % TWO50;
    assert u % TWO51 % TWO50 == u % TWO50;
  }

  lemma ClearBit(w: Word, n: nat, p: int)
    requires Place(n, p) && p <= TWO63
    ensures WordOp(And, w, Complement(p)) == w - w / p % 2 * p
  {
    AndNot(w, p);
    PlaceIsPow2(n, p);
    AndField(w, p, n, 1);
  }

  lemma ClearSign(negative: bool, mag: int)
    requires 0 <= mag < TWO50
    ensures WordOp(And, IntWord(negative, mag), Complement(TWO50)) == IntWord(false, mag)
  {
    var w := IntWord(negative, mag);
    ClearBit(w, 50, TWO50);
    SplitIntWord(w, negative, mag);
  }

  lemma AndNot(w: Word, m: Word)
    ensures WordOp(And, w, Complement(m)) == w - WordOp(And, w, m)
  {
    WordOpIsBitwise(And, w, Complement(m));
    WordOpIsBitwise(And, w, m);
    AndMinus(w, m);
    AndWord(w, -1 - m, Complement(m));
  }

  lemma AndWord(w: Word, k: int, m: Word)
    requires k == m - TWO64
    ensures Bitwise(And, w, m) == Bitwise(And, w, k)
  {
    assert Pow2(64) == TWO64 by { Pow2Values(); }
    DivUnique(k, TWO64, -1, m);
    DivUnique(w, TWO64, 0, w);
    DivUnique(m, TWO64, 0, m);
    BitwiseLow(And, w, k, 64);
    BitwiseRange(And, w, k, 64);
    BitwiseSign(And, w, k);
    DivUnique(Bitwise(And, w, k), TWO64, 0, Bitwise(And, w, k));
  }

  lemma HalfMinus(m: int)
    ensures (-1 - m) / 2 == -1 - m / 2 && (-1 - m) % 2 == 1 - m % 2
  {
  }

  lemma {:induction false} AndMinus(a: int, m: int)
    ensures Bitwise(And, a, -1 - m) == a - Bitwise(And, a, m)
    decreases Abs(a) + Abs(m)
  {
    BitwiseStep(And, a, -1 - m);
    BitwiseStep(And, a, m);
    HalfMinus(m);
    if !(-1 <= a <= 0 && -1 <= m <= 0) {
      AndMinus(a / 2, m / 2);
    }
  }
}

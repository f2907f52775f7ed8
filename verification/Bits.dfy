/**
 Two's-complement bit operations on unbounded integers, and the 64-bit words of C as the
 integers below 2^64. `Bitwise` is the Python meaning of `&`, `|` and `^`: every integer is
 an infinite string of bits, the negative ones ending in ones.
 */
module Bits {

  datatype BitOp = And | Or | Xor

  const TWO32: int := 0x1_0000_0000
  const TWO50: int := 0x4_0000_0000_0000
  const TWO63: int := 0x8000_0000_0000_0000
  const TWO64: int := 0x1_0000_0000_0000_0000

  type Word = w: int | 0 <= w < TWO64
  type Int64 = i: int | -TWO63 <= i < TWO63
  // The integers the runtime's words hold: a sign and a 50-bit magnitude.
  predicate Canonical(i: int) {
    -TWO50 < i < TWO50
  }

  type Bit = b: int | 0 <= b < 2

  function Abs(x: int): nat {
    if x < 0 then -x else x
  }

  function Pow2(k: nat): (p: int)
    ensures p > 0
  {
    if k == 0 then 1 else 2 * Pow2(k - 1)
  }

  function OnBits(op: BitOp, a: Bit, b: Bit): (r: int)
    ensures 0 <= r <= 1
  {
    match op
    case And => if a == 1 && b == 1 then 1 else 0
    case Or => if a == 1 || b == 1 then 1 else 0
    case Xor => if a != b then 1 else 0
  }

  function Bitwise(op: BitOp, a: int, b: int): int
    decreases Abs(a) + Abs(b)
  {
    if -1 <= a <= 0 && -1 <= b <= 0 then
      -OnBits(op, -a, -b)
    else
      2 * Bitwise(op, a / 2, b / 2) + OnBits(op, a % 2, b % 2)
  }

  // Bit k of the two's-complement string of x.
  function BitAt(x: int, k: nat): Bit
    decreases k
  {
    if k == 0 then x % 2 else BitAt(x / 2, k - 1)
  }

  // ---- The shape of Bitwise ----

  lemma BitwiseStep(op: BitOp, a: int, b: int)
    ensures Bitwise(op, a, b) == 2 * Bitwise(op, a / 2, b / 2) + OnBits(op, a % 2, b % 2)
  {
  }

  lemma BitwiseHalf(op: BitOp, a: int, b: int)
    ensures Bitwise(op, a, b) / 2 == Bitwise(op, a / 2, b / 2)
  {
    BitwiseStep(op, a, b);
  }

  lemma {:induction false} BitwiseBits(op: BitOp, a: int, b: int, k: nat)
    ensures BitAt(Bitwise(op, a, b), k) == OnBits(op, BitAt(a, k), BitAt(b, k))
    decreases k
  {
    BitwiseStep(op, a, b);
    if k > 0 {
      BitwiseBits(op, a / 2, b / 2, k - 1);
    }
  }

  // Bit by bit, what `&`, `|` and `^` are.
  lemma BitwiseTable(a: int, b: int, k: nat)
    ensures BitAt(Bitwise(And, a, b), k) == 1 <==> BitAt(a, k) == 1 && BitAt(b, k) == 1
    ensures BitAt(Bitwise(Or, a, b), k) == 1 <==> BitAt(a, k) == 1 || BitAt(b, k) == 1
    ensures BitAt(Bitwise(Xor, a, b), k) == 1 <==> BitAt(a, k) != BitAt(b, k)
  {
    BitwiseBits(And, a, b, k);
    BitwiseBits(Or, a, b, k);
    BitwiseBits(Xor, a, b, k);
  }

  lemma {:induction false} BitwiseSign(op: BitOp, a: int, b: int)
    ensures Bitwise(op, a, b) < 0 <==> OnBits(op, if a < 0 then 1 else 0, if b < 0 then 1 else 0) == 1
    decreases Abs(a) + Abs(b)
  {
    if !(-1 <= a <= 0 && -1 <= b <= 0) {
      BitwiseSign(op, a / 2, b / 2);
    }
  }

  lemma {:induction false} BitwiseRange(op: BitOp, a: int, b: int, n: nat)
    requires -Pow2(n) <= a < Pow2(n) && -Pow2(n) <= b < Pow2(n)
    ensures -Pow2(n) <= Bitwise(op, a, b) < Pow2(n)
    decreases n
  {
    if n > 0 {
      BitwiseStep(op, a, b);
      BitwiseRange(op, a / 2, b / 2, n - 1);
    }
  }

  // The low n bits of the result depend on the low n bits of the operands alone.
  lemma {:induction false} BitwiseLow(op: BitOp, a: int, b: int, n: nat)
    ensures Bitwise(op, a, b) % Pow2(n) == Bitwise(op, a % Pow2(n), b % Pow2(n))
    decreases n
  {
    if n > 0 {
      var p := Pow2(n - 1);
      ModHalf(a, p);
      ModHalf(b, p);
      BitwiseStep(op, a, b);
      BitwiseStep(op, a % Pow2(n), b % Pow2(n));
      BitwiseLow(op, a / 2, b / 2, n - 1);
      ModDouble(Bitwise(op, a / 2, b / 2), p, OnBits(op, a % 2, b % 2));
    }
  }

  // Shifting right by n commutes with the operation.
  lemma {:induction false} BitwiseHigh(op: BitOp, a: int, b: int, n: nat)
    ensures Bitwise(op, a, b) / Pow2(n) == Bitwise(op, a / Pow2(n), b / Pow2(n))
    decreases n
  {
    if n > 0 {
      var p := Pow2(n - 1);
      BitwiseHalf(op, a, b);
      DivDouble(a, p);
      DivDouble(b, p);
      DivDouble(Bitwise(op, a, b), p);
      BitwiseHigh(op, a / 2, b / 2, n - 1);
    }
  }

  // ---- Division by powers of two ----

  lemma DivDouble(a: int, p: nat)
    requires p > 0
    ensures a / (2 * p) == (a / 2) / p
  {
    var q, r := a / 2 / p, a / 2 % p;
    assert a == 2 * (p * q + r) + a % 2;
    DivUnique(a, 2 * p, q, 2 * r + a % 2);
  }

  lemma DivUnique(a: int, d: nat, q: int, r: int)
    requires 0 <= r < d && a == d * q + r
    ensures a / d == q && a % d == r
  {
    SmallMultiple(d, a / d - q, r - a % d);
  }

  lemma SmallMultiple(d: int, k: int, x: int)
    requires -d < x < d && d * k == x
    ensures k == 0
  {
    if k >= 1 {
      MulGrows(d, k);
    } else if k <= -1 {
      MulGrows(d, -k);
    }
  }

  lemma MulGrows(d: int, k: int)
    requires d >= 0 && k >= 1
    ensures d * k >= d
  {
    assert d * k == d * (k - 1) + d;
    assert d * (k - 1) >= 0;
  }

  lemma ModHalf(a: int, p: nat)
    requires p > 0
    ensures a % (2 * p) % 2 == a % 2
    ensures a % (2 * p) / 2 == a / 2 % p
    ensures a % (2 * p) == 2 * (a / 2 % p) + a % 2
  {
    var q, r := a / 2 / p, a / 2 % p;
    assert a == 2 * p * q + (2 * r + a % 2) by {
      assert a / 2 == p * q + r;
    }
    DivUnique(a, 2 * p, q, 2 * r + a % 2);
  }

  lemma ModDouble(x: int, p: nat, b: Bit)
    requires p > 0
    ensures (2 * x + b) % (2 * p) == 2 * (x % p) + b
  {
    ModHalf(2 * x + b, p);
  }

  lemma BitAtIsDivMod(x: int, k: nat)
    ensures BitAt(x, k) == x / Pow2(k) % 2
    decreases k
  {
    if k > 0 {
      BitAtIsDivMod(x / 2, k - 1);
      DivDouble(x, Pow2(k - 1));
    }
  }

  // An integer is determined by its bits.
  lemma {:induction false} SameBitsSameNumber(a: int, b: int)
    requires forall k: nat :: BitAt(a, k) == BitAt(b, k)
    ensures a == b
    decreases Abs(a) + Abs(b)
  {
    assert BitAt(a, 0) == BitAt(b, 0);
    if !(-1 <= a <= 0 && -1 <= b <= 0) {
      forall k: nat
        ensures BitAt(a / 2, k) == BitAt(b / 2, k)
      {
        assert BitAt(a, k + 1) == BitAt(b, k + 1);
      }
      SameBitsSameNumber(a / 2, b / 2);
    }
  }

  // ---- Masks, disjoint fields, complements ----

  lemma {:induction false} AndMask(a: int, n: nat)
    ensures Bitwise(And, a, Pow2(n) - 1) == a % Pow2(n)
    decreases n
  {
    BitwiseStep(And, a, Pow2(n) - 1);
    if n > 0 {
      assert (Pow2(n) - 1) / 2 == Pow2(n - 1) - 1 && (Pow2(n) - 1) % 2 == 1;
      AndMask(a / 2, n - 1);
      ModHalf(a, Pow2(n - 1));
    } else {
      AndZero(a);
    }
  }

  lemma {:induction false} AndZero(a: int)
    ensures Bitwise(And, a, 0) == 0
    decreases Abs(a)
  {
    if !(-1 <= a <= 0) {
      AndZero(a / 2);
    }
  }

  lemma {:induction false} OrZero(a: int)
    ensures Bitwise(Or, a, 0) == a
    ensures Bitwise(Or, 0, a) == a
    decreases Abs(a)
  {
    if !(-1 <= a <= 0) {
      OrZero(a / 2);
    }
  }

  // Fields that do not overlap are joined by addition.
  lemma OrDisjoint(a: int, b: int, n: nat)
    requires a % Pow2(n) == 0 && 0 <= b < Pow2(n)
    ensures Bitwise(Or, a, b) == a + b
    ensures Bitwise(Or, b, a) == a + b
  {
    var p := Pow2(n);
    DivUnique(b, p, 0, b);
    OrZero(b);
    OrZero(a / p);
    forall x, y | (x == a && y == b) || (x == b && y == a)
      ensures Bitwise(Or, x, y) == a + b
    {
      BitwiseLow(Or, x, y, n);
      BitwiseHigh(Or, x, y, n);
      DivParts(Bitwise(Or, x, y), a, b, p);
    }
  }

  lemma DivParts(r: int, a: int, b: int, p: int)
    requires p > 0 && a % p == 0 && r % p == b && r / p == a / p
    ensures r == a + b
  {
    assert r == p * (r / p) + r % p;
    assert a == p * (a / p) + a % p;
  }

  lemma {:induction false} XorOnes(a: int)
    ensures Bitwise(Xor, a, -1) == -1 - a
    ensures Bitwise(Xor, a, 0) == a
    decreases Abs(a)
  {
    if !(-1 <= a <= 0) {
      XorOnes(a / 2);
    }
  }

  lemma XorMask(a: int, n: nat)
    requires 0 <= a < Pow2(n)
    ensures Bitwise(Xor, a, Pow2(n) - 1) == Pow2(n) - 1 - a
  {
    var p := Pow2(n);
    DivUnique(a, p, 0, a);
    DivUnique(-1, p, -1, p - 1);
    DivUnique(-1 - a, p, -1, p - 1 - a);
    XorOnes(a);
    BitwiseLow(Xor, a, -1, n);
  }

  // ---- C's 64-bit words ----

  lemma Pow2Values()
    ensures Pow2(1) == 2 && Pow2(8) == 0x100 && Pow2(11) == 0x800
    ensures Pow2(3) == 8 && Pow2(16) == 0x1_0000
    ensures Pow2(32) == TWO32 && Pow2(48) == 0x1_0000_0000_0000
    ensures Pow2(50) == 0x4_0000_0000_0000 && Pow2(51) == 0x8_0000_0000_0000
    ensures Pow2(52) == 0x10_0000_0000_0000 && Pow2(63) == TWO63 && Pow2(64) == TWO64
  {
    Pow2Sum(16, 16);
    Pow2Sum(32, 16);
    Pow2Sum(48, 4);
    Pow2Sum(48, 15);
    Pow2Sum(32, 32);
  }

  lemma {:induction false} Pow2Sum(j: nat, k: nat)
    ensures Pow2(j + k) == Pow2(j) * Pow2(k)
    decreases k
  {
    if k > 0 {
      Pow2Sum(j, k - 1);
    }
  }

  // uint64_t to int64_t and back: both keep the 64 bits.
  function Signed(w: Word): Int64 {
    if w < TWO63 then w else w - TWO64
  }

  function Unsigned(i: int): Word {
    i % TWO64
  }

  // `&`, `|` and `^` on two words: bit k of the result comes from bit k of the operands.
  ghost predicate Combines(op: BitOp, a: Word, b: Word, r: int) {
    forall k: nat :: BitAt(r, k) == OnBits(op, BitAt(a, k), BitAt(b, k))
  }

  ghost function WordOp(op: BitOp, a: Word, b: Word): Word {
    WordOpExists(op, a, b);
    var r: Word :| Combines(op, a, b, r);
    r
  }

  // `>>`: bit j of the result is bit j + k of the word.
  ghost predicate ShiftsRight(w: Word, k: nat, r: int) {
    forall j: nat :: BitAt(r, j) == BitAt(w, j + k)
  }

  ghost function Shr(w: Word, k: nat): Word {
    ShrExists(w, k);
    var r: Word :| ShiftsRight(w, k, r);
    r
  }

  // `<<`: bit j of the word becomes bit j + k, unless that is off the left end.
  ghost predicate ShiftsLeft(w: Word, k: nat, r: int) {
    forall j: nat :: BitAt(r, j) == if k <= j < 64 then BitAt(w, j - k) else 0
  }

  ghost function Shl(w: Word, k: nat): Word {
    ShlExists(w, k);
    var r: Word :| ShiftsLeft(w, k, r);
    r
  }

  // `~`
  function Complement(w: Word): Word {
    TWO64 - 1 - w
  }

  lemma WordOpExists(op: BitOp, a: Word, b: Word)
    ensures 0 <= Bitwise(op, a, b) < TWO64
    ensures Combines(op, a, b, Bitwise(op, a, b))
  {
    Pow2Values();
    BitwiseRange(op, a, b, 64);
    BitwiseSign(op, a, b);
    forall k: nat
      ensures BitAt(Bitwise(op, a, b), k) == OnBits(op, BitAt(a, k), BitAt(b, k))
    {
      BitwiseBits(op, a, b, k);
    }
  }

  lemma WordOpIsBitwise(op: BitOp, a: Word, b: Word)
    ensures WordOp(op, a, b) == Bitwise(op, a, b)
  {
    WordOpExists(op, a, b);
    SameBitsSameNumber(WordOp(op, a, b), Bitwise(op, a, b));
  }

  lemma ShrExists(w: Word, k: nat)
    ensures 0 <= w / Pow2(k) < TWO64
    ensures ShiftsRight(w, k, w / Pow2(k))
  {
    DivShrinks(w, Pow2(k));
    forall j: nat
      ensures BitAt(w / Pow2(k), j) == BitAt(w, j + k)
    {
      BitOfShift(w, j, k);
    }
  }

  lemma ShrIsDiv(w: Word, k: nat)
    ensures Shr(w, k) == w / Pow2(k)
  {
    ShrExists(w, k);
    forall j: nat
      ensures BitAt(Shr(w, k), j) == BitAt(w / Pow2(k), j)
    {
      assert BitAt(Shr(w, k), j) == BitAt(w, j + k);
    }
    SameBitsSameNumber(Shr(w, k), w / Pow2(k));
  }

  lemma {:induction false} BitOfShift(w: int, j: nat, k: nat)
    ensures BitAt(w / Pow2(k), j) == BitAt(w, j + k)
    decreases k
  {
    if k > 0 {
      BitOfShift(w / 2, j, k - 1);
      DivDouble(w, Pow2(k - 1));
    }
  }

  lemma ShlExists(w: Word, k: nat)
    ensures 0 <= w * Pow2(k) % TWO64 < TWO64
    ensures ShiftsLeft(w, k, w * Pow2(k) % TWO64)
  {
    forall j: nat
      ensures BitAt(w * Pow2(k) % TWO64, j) == if k <= j < 64 then BitAt(w, j - k) else 0
    {
      assert Pow2(64) == TWO64 by { Pow2Values(); }
      BitOfLow(w * Pow2(k), 64, j);
      BitOfProduct(w, j, k);
    }
  }

  lemma ShlIsMul(w: Word, k: nat)
    ensures Shl(w, k) == w * Pow2(k) % TWO64
  {
    ShlExists(w, k);
    SameBitsSameNumber(Shl(w, k), w * Pow2(k) % TWO64);
  }

  lemma {:induction false} BitOfLow(x: int, n: nat, j: nat)
    ensures BitAt(x % Pow2(n), j) == if j < n then BitAt(x, j) else 0
    decreases n, j
  {
    if n == 0 {
      BitOfZero(j);
    } else {
      ModHalf(x, Pow2(n - 1));
      if j > 0 {
        BitOfLow(x / 2, n - 1, j - 1);
      }
    }
  }

  lemma {:induction false} BitOfZero(j: nat)
    ensures BitAt(0, j) == 0
    decreases j
  {
    if j > 0 {
      BitOfZero(j - 1);
    }
  }

  lemma BitOfProduct(w: int, j: nat, k: nat)
    ensures BitAt(w * Pow2(k), j) == if k <= j then BitAt(w, j - k) else 0
  {
    if j < k {
      BitOfMultiple(w, j, k);
    } else {
      DivUnique(w * Pow2(k), Pow2(k), w, 0);
      BitOfShift(w * Pow2(k), j - k, k);
    }
  }

  lemma {:induction false} BitOfMultiple(w: int, j: nat, k: nat)
    requires j < k
    ensures BitAt(w * Pow2(k), j) == 0
    decreases j
  {
    assert w * Pow2(k) == 2 * (w * Pow2(k - 1));
    if j > 0 {
      BitOfMultiple(w, j - 1, k - 1);
    }
  }

  lemma DivShrinks(a: nat, d: int)
    requires d > 0
    ensures 0 <= a / d <= a
  {
    assert a / d >= 0;
    if a / d > 0 {
      MulGrows(a / d, d);
    }
  }

  // int64_t operands: the operation on the two bit patterns.
  ghost function SignedOp(op: BitOp, a: Int64, b: Int64): Int64 {
    Signed(WordOp(op, Unsigned(a), Unsigned(b)))
  }

  // On 64 bits C's operators give Python's answer, whatever the signs.
  lemma SignedOpIsBitwise(op: BitOp, a: Int64, b: Int64)
    ensures SignedOp(op, a, b) == Bitwise(op, a, b)
  {
    Pow2Values();
    WordOpIsBitwise(op, Unsigned(a), Unsigned(b));
    BitwiseLow(op, a, b, 64);
    BitwiseRange(op, a, b, 63);
    SignedUnsigned(Bitwise(op, a, b));
  }

  lemma SignedUnsigned(i: Int64)
    ensures Signed(Unsigned(i)) == i
  {
  }
}

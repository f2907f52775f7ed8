/**
 The NaN-boxed 64-bit word: which of 19 types a word has, and how integers, booleans, None,
 floats and (arena id, offset) references are packed into one word and read back.
 Each function is written with the masks and shifts of the C code; the lemmas restate the
 words as sums of disjoint fields and prove the round trips.
 */
module Duckbox {
  import opened Bits

  type Duck = Word

  const FULL_EXP: Word := 0x7FF0_0000_0000_0000
  const FULL_MANT: Word := 0x000F_FFFF_FFFF_FFFF
  const INT_FLAG: Word := 0x0008_0000_0000_0000
  const LARGE_BIT: Word := 0x8000_0000_0000_0000
  const PTR_B_MAP: Word := 0x7FF7_0000_0000_0000
  const NEG_INT64: Word := 0xFFF8_0000_0000_0000
  const MAG_MASK: Word := 0x0003_FFFF_FFFF_FFFF

  const TWO48: int := 0x1_0000_0000_0000
  const TWO51: int := 0x8_0000_0000_0000
  const TWO52: int := 0x10_0000_0000_0000

  datatype Tag =
    | FLOAT | NONE | NAN | BIGINT | COMPLEX | STR | STRBYTES | LIST | LISTBYTES
    | TUPLE | SET | DICT | DEQUE | FUNC | CLOSURE | OBJ | BOOL | INT | UINT

  // The value of the C enumerator.
  function Code(t: Tag): (c: int)
    ensures 0 <= c < 19 && TagAt(c) == t
  {
    match t
    case FLOAT => 0 case NONE => 1 case NAN => 2 case BIGINT => 3 case COMPLEX => 4
    case STR => 5 case STRBYTES => 6 case LIST => 7 case LISTBYTES => 8 case TUPLE => 9
    case SET => 10 case DICT => 11 case DEQUE => 12 case FUNC => 13 case CLOSURE => 14
    case OBJ => 15 case BOOL => 16 case INT => 17 case UINT => 18
  }

  function TagAt(c: int): Tag
    requires 0 <= c < 19
  {
    [FLOAT, NONE, NAN, BIGINT, COMPLEX, STR, STRBYTES, LIST, LISTBYTES,
     TUPLE, SET, DICT, DEQUE, FUNC, CLOSURE, OBJ, BOOL, INT, UINT][c]
  }

  // ---- Fields of a word ----

  // The bits lo, lo + 1, .., lo + width - 1 of w, as a number.
  lemma AndField(w: Word, mask: Word, lo: nat, width: nat)
    requires mask == Pow2(lo) * (Pow2(width) - 1)
    ensures WordOp(And, w, mask) == Pow2(lo) * (w / Pow2(lo) % Pow2(width))
  {
    var p, ones := Pow2(lo), Pow2(width) - 1;
    WordOpIsBitwise(And, w, mask);
    DivUnique(mask, p, ones, 0);
    BitwiseHigh(And, w, mask, lo);
    BitwiseLow(And, w, mask, lo);
    AndMask(w / p, width);
    AndZero(w % p);
    Reassemble(Bitwise(And, w, mask), p, w / p % Pow2(width));
  }

  lemma Reassemble(r: int, p: int, q: int)
    requires p > 0 && r / p == q && r % p == 0
    ensures r == p * q
  {
  }

  lemma AndLow(w: Word, mask: Word, width: nat)
    requires mask == Pow2(width) - 1
    ensures WordOp(And, w, mask) == w % Pow2(width)
  {
    WordOpIsBitwise(And, w, mask);
    AndMask(w, width);
  }

  // The powers of two at which the packers place their fields.
  predicate Place(n: nat, p: int) {
    (n, p) in {(1, 2), (13, 0x2000), (32, TWO32), (48, TWO48), (50, TWO50), (51, TWO51), (52, TWO52), (63, TWO63)}
  }

  lemma PlaceIsPow2(n: nat, p: int)
    requires Place(n, p)
    ensures Pow2(n) == p
  {
    Pow2Values();
    assert Pow2(13) == 0x2000;
  }

  // A multiple of 2^n and a number below 2^n are joined by addition.
  lemma OrAdd(a: Word, b: Word, n: nat, p: int, k: int)
    requires Place(n, p) && a == p * k && b < p
    ensures WordOp(Or, a, b) == a + b
    ensures WordOp(Or, b, a) == a + b
  {
    PlaceIsPow2(n, p);
    WordOpIsBitwise(Or, a, b);
    WordOpIsBitwise(Or, b, a);
    DivUnique(a, p, k, 0);
    OrDisjoint(a, b, n);
  }

  lemma ShlField(w: Word, n: nat, p: int)
    requires Place(n, p) && 0 <= w * p < TWO64
    ensures Shl(w, n) == w * p
  {
    PlaceIsPow2(n, p);
    ShlIsMul(w, n);
  }

  lemma XorSame(a: Word, b: Word)
    ensures WordOp(Xor, a, b) == 0 <==> a == b
  {
    var r := WordOp(Xor, a, b);
    assert Combines(Xor, a, b, r);
    forall k: nat
      ensures r == 0 ==> BitAt(a, k) == BitAt(b, k)
      ensures a == b ==> BitAt(r, k) == BitAt(0, k)
    {
      BitOfZero(k);
      assert BitAt(r, k) == OnBits(Xor, BitAt(a, k), BitAt(b, k));
    }
    if r == 0 {
      SameBitsSameNumber(a, b);
    } else if a == b {
      SameBitsSameNumber(r, 0);
    }
  }

  lemma ExpField(w: Word)
    ensures WordOp(And, w, FULL_EXP) == TWO52 * (w / TWO52 % 0x800)
  {
    Pow2Values();
    AndField(w, FULL_EXP, 52, 11);
  }

  lemma MantField(w: Word)
    ensures WordOp(And, w, FULL_MANT) == w % TWO52
  {
    Pow2Values();
    AndLow(w, FULL_MANT, 52);
  }

  lemma FlagField(w: Word)
    ensures WordOp(And, w, INT_FLAG) == TWO51 * (w / TWO51 % 2)
  {
    Pow2Values();
    AndField(w, INT_FLAG, 51, 1);
  }

  lemma MagField(w: Word)
    ensures WordOp(And, w, MAG_MASK) == w % TWO50
  {
    Pow2Values();
    AndLow(w, MAG_MASK, 50);
  }

  lemma LowFields(w: Word)
    ensures WordOp(And, w, 1) == w % 2 && WordOp(And, w, 7) == w % 8
  {
    Pow2Values();
    AndLow(w, 1, 1);
    AndLow(w, 7, 3);
  }

  lemma Shifts(w: Word)
    ensures Shr(w, 32) == w / TWO32 && Shr(w, 48) == w / TWO48
    ensures Shr(w, 50) == w / TWO50 && Shr(w, 63) == w / TWO63
  {
    Pow2Values();
    ShrIsDiv(w, 32);
    ShrIsDiv(w, 48);
    ShrIsDiv(w, 50);
    ShrIsDiv(w, 63);
  }

  // ---- Type dispatch ----

  ghost function TypeCode(duck: Duck): int {
    var isFloat := WordOp(Xor, WordOp(And, duck, FULL_EXP), FULL_EXP) != 0 || WordOp(And, duck, FULL_MANT) == 0;
    var isInt := WordOp(And, duck, INT_FLAG) != 0;
    if isFloat then 0
    else (if isInt then 16 else 2 * WordOp(And, Shr(duck, 48), 7)) + Shr(duck, 63) + 1
  }

  ghost function TypeOf(duck: Duck): Tag {
    TypeCodeByFields(duck);
    TagAt(TypeCode(duck))
  }

  // A word is a sign bit, an 11-bit exponent and a 52-bit mantissa.
  lemma TypeCodeByFields(w: Word)
    ensures TypeCode(w) == CodeOfFields(w / TWO63, w / TWO52 % 0x800, w % TWO52)
    ensures 0 <= TypeCode(w) < 19
  {
    ExpField(w);
    MantField(w);
    FlagField(w);
    Shifts(w);
    LowFields(w / TWO48);
    XorSame(WordOp(And, w, FULL_EXP), FULL_EXP);
    Mantissa(w);
  }

  function CodeOfFields(sign: int, exp: int, mant: int): int {
    if exp != 0x7FF || mant == 0 then 0
    else if mant >= TWO51 then 17 + sign
    else 2 * (mant / TWO48) + sign + 1
  }

  lemma Mantissa(w: int)
    ensures w / TWO51 % 2 == w % TWO52 / TWO51
    ensures w % TWO52 < TWO51 ==> w / TWO48 % 8 == w % TWO52 / TWO48
  {
    var q, m := w / TWO52, w % TWO52;
    DivUnique(w, TWO51, 2 * q + m / TWO51, m % TWO51);
    DivUnique(w, TWO48, 16 * q + m / TWO48, m % TWO48);
  }

  // A word is of type t exactly when its fields say so.
  lemma TypeOfIs(w: Word, t: Tag)
    ensures TypeOf(w) == t <==> CodeOfFields(w / TWO63, w / TWO52 % 0x800, w % TWO52) == Code(t)
  {
    TypeCodeByFields(w);
    CodeOfTag(TypeCode(w));
  }

  lemma CodeOfTag(c: int)
    requires 0 <= c < 19
    ensures Code(TagAt(c)) == c
  {
  }

  // A boxed word: exponent all ones.
  lemma BoxType(w: int, sign: int, mant: int)
    requires 0 <= sign <= 1 && 0 < mant < TWO52 && w == TWO63 * sign + 0x7FF0_0000_0000_0000 + mant
    ensures 0 <= w < TWO64
    ensures Code(TypeOf(w)) == if mant >= TWO51 then 17 + sign else 2 * (mant / TWO48) + sign + 1
  {
    BoxFields(w, sign, mant);
    TypeOfIs(w, TypeOf(w));
  }

  lemma BoxFields(w: int, sign: int, mant: int)
    requires 0 <= sign <= 1 && 0 <= mant < TWO52 && w == TWO63 * sign + 0x7FF0_0000_0000_0000 + mant
    ensures 0 <= w < TWO64 && w / TWO63 == sign && w / TWO52 % 0x800 == 0x7FF && w % TWO52 == mant
  {
  }

  // ---- Integers ----

  ghost function PackI(i: Int64): Duck {
    PackSign(i);
    var sign: Int64 := Shr(Unsigned(i), 63);
    var mag := Magnitude(i, sign);
    WordOp(Or, WordOp(Or, WordOp(Or, FULL_EXP, INT_FLAG), Shl(sign, 50)), WordOp(And, mag, MAG_MASK))
  }

  // The branchless absolute value: all bits flipped and one added when sign is 1.
  ghost function Magnitude(i: Int64, sign: int): Word
    requires 0 <= sign <= 1
  {
    Unsigned(Unsigned(SignedOp(Xor, i, -sign)) + sign)
  }

  ghost function UnpackI(duck: Duck): Int64 {
    var sign: int := WordOp(And, Shr(duck, 50), 1);
    var mag := WordOp(And, duck, MAG_MASK);
    Signed(Unsigned(WordOp(Xor, mag, Unsigned(-sign)) + sign))
  }

  lemma PackSign(i: Int64)
    ensures Shr(Unsigned(i), 63) == if i < 0 then 1 else 0
  {
    Shifts(Unsigned(i));
  }

  lemma MagnitudeIsAbs(i: Int64)
    ensures Magnitude(i, if i < 0 then 1 else 0) == Abs(i)
  {
    SignedOpIsBitwise(Xor, i, -1);
    SignedOpIsBitwise(Xor, i, 0);
    XorOnes(i);
    if i < 0 {
      WrapAbs(i, SignedOp(Xor, i, -1), 1);
    } else {
      WrapAbs(i, SignedOp(Xor, i, 0), 0);
    }
  }

  lemma WrapAbs(i: Int64, x: Int64, sign: int)
    requires if i < 0 then sign == 1 && x == -1 - i else sign == 0 && x == i
    ensures Unsigned(Unsigned(x) + sign) == Abs(i)
  {
  }

  // The INT word as a sum of its fields: a sign in bit 50 and a 50-bit magnitude.
  function IntWord(negative: bool, mag: int): Duck
    requires 0 <= mag < TWO50
  {
    0x7FF8_0000_0000_0000 + (if negative then TWO50 else 0) + mag
  }

  lemma PackIFields(i: Int64)
    ensures PackI(i) == IntWord(i < 0, Abs(i) % TWO50)
  {
    PackSign(i);
    MagnitudeIsAbs(i);
    MagField(Abs(i));
    OrIntFields(if i < 0 then 1 else 0, Abs(i) % TWO50);
  }

  lemma PackICanonical(i: int)
    requires Canonical(i)
    ensures PackI(i) == IntWord(i < 0, Abs(i))
  {
    PackIFields(i);
  }

  lemma OrIntFields(sign: Bit, m: Word)
    requires m < TWO50
    ensures WordOp(Or, WordOp(Or, WordOp(Or, FULL_EXP, INT_FLAG), Shl(sign, 50)), m) == IntWord(sign == 1, m)
  {
    ShlField(sign, 50, TWO50);
    OrAdd(FULL_EXP, INT_FLAG, 52, TWO52, 0x7FF);
    OrAdd(0x7FF8_0000_0000_0000, TWO50 * sign, 51, TWO51, 0xFFF);
    OrAdd(0x7FF8_0000_0000_0000 + TWO50 * sign, m, 50, TWO50, 0x1FFE + sign);
  }

  lemma UnpackIFields(w: Duck)
    ensures UnpackI(w) == if w / TWO50 % 2 == 1 then -(w % TWO50) else w % TWO50
  {
    Shifts(w);
    LowFields(w / TWO50);
    MagField(w);
    var mag: Word := w % TWO50;
    XorWordOnes(mag);
    WrapBack(mag, WordOp(Xor, mag, Unsigned(-1)), 1);
    WrapBack(mag, WordOp(Xor, mag, Unsigned(0)), 0);
  }

  lemma XorWordOnes(mag: Word)
    ensures WordOp(Xor, mag, Unsigned(-1)) == TWO64 - 1 - mag
    ensures WordOp(Xor, mag, Unsigned(0)) == mag
  {
    WordOpIsBitwise(Xor, mag, Unsigned(-1));
    WordOpIsBitwise(Xor, mag, Unsigned(0));
    Pow2Values();
    XorOnes(mag);
    XorMask(mag, 64);
  }

  lemma WrapBack(mag: Word, x: Word, sign: int)
    requires mag < TWO50
    requires if sign == 1 then x == TWO64 - 1 - mag else sign == 0 && x == mag
    ensures Signed(Unsigned(x + sign)) == if sign == 1 then -(mag as int) else mag
  {
  }

  lemma IntWordFields(negative: bool, mag: int)
    requires 0 <= mag < TWO50
    ensures TypeOf(IntWord(negative, mag)) == INT
    ensures UnpackI(IntWord(negative, mag)) == if negative then -mag else mag
  {
    var w := IntWord(negative, mag);
    BoxType(w, 0, w - FULL_EXP);
    SplitIntWord(w, negative, mag);
    UnpackIFields(w);
  }

  lemma SplitIntWord(w: int, negative: bool, mag: int)
    requires 0 <= mag < TWO50 && w == 0x7FF8_0000_0000_0000 + (if negative then TWO50 else 0) + mag
    ensures w % TWO50 == mag && w / TWO50 % 2 == if negative then 1 else 0
  {
  }

  lemma JoinIntWord(w: int)
    requires 0 <= w < TWO64 && w / TWO63 == 0 && w / TWO52 % 0x800 == 0x7FF && w % TWO52 >= TWO51
    ensures w == 0x7FF8_0000_0000_0000 + w / TWO50 % 2 * TWO50 + w % TWO50
  {
    var m := w % TWO52;
    assert w == 0x7FF0_0000_0000_0000 + m;
    assert m == TWO51 + m % TWO51;
    assert m % TWO51 == m % TWO51 / TWO50 * TWO50 + m % TWO50;
  }

  function SignOf(i: int): int {
    if i < 0 then -1 else if i == 0 then 0 else 1
  }

  // Every 64-bit integer comes back with its sign and its magnitude modulo 2^50.
  lemma UnpackPackI(i: Int64)
    ensures TypeOf(PackI(i)) == INT
    ensures UnpackI(PackI(i)) == SignOf(i) * (Abs(i) % TWO50)
    ensures UnpackI(PackI(i)) == i <==> Canonical(i)
  {
    PackIFields(i);
    IntWordFields(i < 0, Abs(i) % TWO50);
    SignTimes(i, Abs(i) % TWO50);
  }

  lemma SignTimes(i: int, m: int)
    requires m == Abs(i) % TWO50
    ensures SignOf(i) * m == if i < 0 then -m else m
    ensures (if i < 0 then -m else m) == i <==> Canonical(i)
  {
    if i < 0 {
      assert SignOf(i) * m == -m;
    } else if i > 0 {
      assert SignOf(i) * m == m;
    }
  }

  lemma PackIInjective(i: Int64, j: Int64)
    requires Canonical(i) && Canonical(j)
    ensures PackI(i) == PackI(j) <==> i == j
  {
    UnpackPackI(i);
    UnpackPackI(j);
  }

  // The INT words are the packed integers and one word more, the negative zero.
  lemma IntWordsArePacked(w: Duck)
    requires TypeOf(w) == INT
    ensures Canonical(UnpackI(w))
    ensures w == PackI(UnpackI(w)) <==> w != IntWord(true, 0)
  {
    var negative, mag := IntWordShape(w);
    IntWordFields(negative, mag);
    PackIFields(UnpackI(w));
    assert Abs(UnpackI(w)) % TWO50 == mag;
  }

  lemma IntWordShape(w: Duck) returns (negative: bool, mag: int)
    requires TypeOf(w) == INT
    ensures 0 <= mag < TWO50 && w == IntWord(negative, mag)
  {
    TypeOfIs(w, INT);
    JoinIntWord(w);
    negative, mag := w / TWO50 % 2 == 1, w % TWO50;
  }

  // The negative zero comes from packing a negative multiple of 2^50.
  lemma NegativeZero(i: Int64)
    ensures PackI(i) == IntWord(true, 0) <==> i < 0 && i % TWO50 == 0
    ensures UnpackI(IntWord(true, 0)) == 0
  {
    PackIFields(i);
    IntWordFields(true, 0);
  }

  ghost function NegateI(duck: Duck): Duck {
    UnpackIFields(duck);
    PackI(-(UnpackI(duck) as int))
  }

  lemma NegateNegates(w: Duck)
    ensures TypeOf(NegateI(w)) == INT
    ensures UnpackI(NegateI(w)) == -(UnpackI(w) as int)
  {
    UnpackIFields(w);
    UnpackPackI(-(UnpackI(w) as int));
  }

  // ---- Unsigned integers ----

  ghost function PackU(u: Word): Duck {
    WordOp(Or, WordOp(Or, WordOp(Or, u, FULL_EXP), INT_FLAG), LARGE_BIT)
  }

  ghost function UnpackU(duck: Duck): Word {
    WordOp(And, duck, Complement(NEG_INT64))
  }

  lemma UMask(w: Duck)
    ensures UnpackU(w) == w % TWO51
  {
    Pow2Values();
    AndLow(w, Complement(NEG_INT64), 51);
  }

  lemma PackUFields(u: Word)
    ensures PackU(u) == NEG_INT64 + u % TWO51
  {
    OrAssociative(u, FULL_EXP, INT_FLAG);
    OrAdd(FULL_EXP, INT_FLAG, 52, TWO52, 0x7FF);
    OrAssociative(u, FULL_EXP + INT_FLAG, LARGE_BIT);
    OrAdd(LARGE_BIT, FULL_EXP + INT_FLAG, 63, TWO63, 1);
    OrHighOnes(u);
  }

  lemma OrAssociative(a: Word, b: Word, c: Word)
    ensures WordOp(Or, WordOp(Or, a, b), c) == WordOp(Or, a, WordOp(Or, b, c))
  {
    var ab, bc := WordOp(Or, a, b), WordOp(Or, b, c);
    var l, r := WordOp(Or, ab, c), WordOp(Or, a, bc);
    assert Combines(Or, a, b, ab) && Combines(Or, b, c, bc) && Combines(Or, ab, c, l) && Combines(Or, a, bc, r);
    forall k: nat
      ensures BitAt(l, k) == BitAt(r, k)
    {
      assert BitAt(ab, k) == OnBits(Or, BitAt(a, k), BitAt(b, k));
      assert BitAt(bc, k) == OnBits(Or, BitAt(b, k), BitAt(c, k));
    }
    SameBitsSameNumber(l, r);
  }

  lemma OrHighOnes(u: Word)
    ensures WordOp(Or, u, NEG_INT64) == NEG_INT64 + u % TWO51
  {
    PlaceIsPow2(51, TWO51);
    PlaceIsPow2(13, 0x2000);
    WordOpIsBitwise(Or, u, NEG_INT64);
    DivUnique(NEG_INT64, TWO51, 0x1FFF, 0);
    BitwiseLow(Or, u, NEG_INT64, 51);
    BitwiseHigh(Or, u, NEG_INT64, 51);
    OrZero(u % TWO51);
    OrOnes(u / TWO51, 13);
    DivParts(Bitwise(Or, u, NEG_INT64), NEG_INT64, u % TWO51, TWO51);
  }

  lemma {:induction false} OrOnes(h: int, n: nat)
    requires 0 <= h < Pow2(n)
    ensures Bitwise(Or, h, Pow2(n) - 1) == Pow2(n) - 1
    decreases n
  {
    if n > 0 {
      BitwiseStep(Or, h, Pow2(n) - 1);
      OrOnes(h / 2, n - 1);
    }
  }

  // Every unsigned integer comes back modulo 2^51.
  lemma UnpackPackU(u: Word)
    ensures TypeOf(PackU(u)) == UINT
    ensures UnpackU(PackU(u)) == u % TWO51
  {
    PackUFields(u);
    UMask(PackU(u));
    BoxType(PackU(u), 1, TWO51 + u % TWO51);
  }

  // Arithmetic reads a UINT word through UnpackI: right exactly below 2^50.
  lemma UIntReadAsInt(u: Word)
    requires u < TWO51
    ensures UnpackI(PackU(u)) == u <==> u < TWO50
    ensures u >= TWO50 ==> UnpackI(PackU(u)) == TWO50 - u
  {
    PackUFields(u);
    UnpackIFields(PackU(u));
    SplitUInt(PackU(u), u);
  }

  lemma SplitUInt(w: int, u: int)
    requires 0 <= u < TWO51 && w == 0xFFF8_0000_0000_0000 + u
    ensures w % TWO50 == u % TWO50 && w / TWO50 % 2 == u / TWO50
  {
  }

  // ---- Booleans, None, floats ----

  ghost function PackB(b: bool): Duck {
    WordOp(Or, WordOp(Or, PTR_B_MAP, if b then 1 else 0), LARGE_BIT)
  }

  ghost function UnpackB(duck: Duck): bool {
    WordOp(And, duck, 1) != 0
  }

  ghost function PackN(): Duck {
    WordOp(Or, FULL_EXP, 1)
  }

  function BoolWord(b: bool): Duck {
    0xFFF7_0000_0000_0000 + if b then 1 else 0
  }

  lemma UnpackPackB(b: bool)
    ensures PackB(b) == BoolWord(b)
    ensures TypeOf(PackB(b)) == BOOL && UnpackB(PackB(b)) == b
  {
    var bit := if b then 1 else 0;
    OrAdd(PTR_B_MAP, bit, 48, TWO48, 0x7FF7);
    OrAdd(LARGE_BIT, PTR_B_MAP + bit, 63, TWO63, 1);
    BoxType(BoolWord(b), 1, 0x7_0000_0000_0000 + bit);
    LowFields(BoolWord(b));
  }

  lemma PackNIsNone()
    ensures PackN() == FULL_EXP + 1 && TypeOf(PackN()) == NONE
  {
    OrAdd(FULL_EXP, 1, 52, TWO52, 0x7FF);
    BoxType(FULL_EXP + 1, 0, 1);
  }

  // The argument is the binary64 pattern of the double.
  ghost predicate IsNaN(d: Word) {
    WordOp(And, d, FULL_EXP) == FULL_EXP && WordOp(And, d, FULL_MANT) != 0
  }

  ghost function PackF(d: Word): Duck {
    if IsNaN(d) then WordOp(Xor, TWO64 - 1, 15) else d
  }

  // The exponent is all ones, and the mantissa is not zero.
  lemma NaNByFields(d: Word)
    ensures IsNaN(d) <==> d / 0x10_0000_0000_0000 % 0x800 == 0x7FF && d % 0x10_0000_0000_0000 != 0
  {
    ExpField(d);
    MantField(d);
  }

  // A double is tagged FLOAT exactly when it is no NaN; a NaN becomes a UINT word.
  lemma PackFType(d: Word)
    ensures TypeOf(PackF(d)) == FLOAT <==> !IsNaN(d)
    ensures !IsNaN(d) ==> PackF(d) == d
    ensures IsNaN(d) ==> TypeOf(PackF(d)) == UINT && UnpackU(PackF(d)) == TWO51 - 16
  {
    ExpField(d);
    MantField(d);
    TypeOfIs(d, FLOAT);
    XorLowFour();
    var w := TWO64 - 16;
    BoxType(w, 1, TWO52 - 16);
    UMask(w);
  }

  lemma XorLowFour()
    ensures WordOp(Xor, TWO64 - 1, 15) == TWO64 - 16
  {
    WordOpIsBitwise(Xor, TWO64 - 1, 15);
    WordOpIsBitwise(Xor, 15, TWO64 - 1);
    Pow2Values();
    XorMask(15, 64);
    XorCommutes(15, TWO64 - 1);
  }

  lemma XorCommutes(a: Word, b: Word)
    ensures WordOp(Xor, a, b) == WordOp(Xor, b, a)
  {
    var l, r := WordOp(Xor, a, b), WordOp(Xor, b, a);
    assert Combines(Xor, a, b, l) && Combines(Xor, b, a, r);
    SameBitsSameNumber(l, r);
  }

  // ---- References ----

  // The 13 types whose words point into an arena.
  predicate IsRef(t: Tag) {
    3 <= Code(t) <= 15
  }

  lemma RefTypes(t: Tag)
    ensures IsRef(t) <==> t !in [FLOAT, NONE, NAN, BOOL, INT, UINT]
  {
  }

  // The (tag, variant) pair each typed packer is generated with.
  function RefParts(t: Tag): (int, int)
    requires IsRef(t)
  {
    match t
    case BIGINT => (1, 0) case COMPLEX => (1, 1) case STR => (2, 0) case STRBYTES => (2, 1)
    case LIST => (3, 0) case LISTBYTES => (3, 1) case TUPLE => (4, 0) case SET => (4, 1)
    case DICT => (5, 0) case DEQUE => (5, 1) case FUNC => (6, 0) case CLOSURE => (6, 1)
    case OBJ => (7, 0)
  }

  type UInt16 = x: int | 0 <= x < 0x1_0000
  type UInt32 = x: int | 0 <= x < TWO32

  // A packer generated for one type.
  ghost function PackRef(t: Tag, id: UInt16, offset: UInt32): Duck
    requires IsRef(t)
  {
    var (tag, variant) := RefParts(t);
    WordOp(Or, WordOp(Or, WordOp(Or, WordOp(Or, FULL_EXP, Shl(tag, 48)), Shl(id, 32)), offset), Shl(variant, 63))
  }

  // The generic packer, which computes tag and variant from the type's code in uint8_t.
  ghost function PackP(id: UInt16, offset: UInt32, t: Tag): Duck {
    var byte: Word := (Code(t) - 1) % 0x100;
    var tag := WordOp(And, Shr(byte, 1), 7);
    var variant := WordOp(And, byte, 1);
    WordOp(Or, WordOp(Or, WordOp(Or, WordOp(Or, FULL_EXP, Shl(tag, 48)), Shl(id, 32)), offset), Shl(variant, 63))
  }

  ghost function ArenaIdOf(duck: Duck): Word {
    Shr(WordOp(And, duck, 0x0000_FFFF_0000_0000), 32)
  }

  ghost function OffsetOf(duck: Duck): Word {
    WordOp(And, duck, 0xFFFF_FFFF)
  }

  // Type, arena id and offset are recovered exactly, and both packers agree.
  lemma RefRoundTrip(t: Tag, id: UInt16, offset: UInt32)
    requires IsRef(t)
    ensures PackP(id, offset, t) == PackRef(t, id, offset)
    ensures TypeOf(PackRef(t, id, offset)) == t
    ensures ArenaIdOf(PackRef(t, id, offset)) == id
    ensures OffsetOf(PackRef(t, id, offset)) == offset
  {
    PackPParts(t);
    var (tag, variant) := RefParts(t);
    var w := PackRef(t, id, offset);
    RefFields(tag, variant, id, offset);
    RefType(w, t, id, offset);
    SplitRef(w, tag, variant, id, offset);
    UnpackRef(w);
  }

  // The words of references, by type: the upper 16 bits are these, the others the arena and the offset.
  lemma RefWord(t: Tag, id: UInt16, offset: UInt32)
    requires IsRef(t)
    ensures PackRef(t, id, offset) == TWO32 * id + offset + match t
            case BIGINT => 0x7FF1_0000_0000_0000 case COMPLEX => 0xFFF1_0000_0000_0000
            case STR => 0x7FF2_0000_0000_0000 case STRBYTES => 0xFFF2_0000_0000_0000
            case LIST => 0x7FF3_0000_0000_0000 case LISTBYTES => 0xFFF3_0000_0000_0000
            case TUPLE => 0x7FF4_0000_0000_0000 case SET => 0xFFF4_0000_0000_0000
            case DICT => 0x7FF5_0000_0000_0000 case DEQUE => 0xFFF5_0000_0000_0000
            case FUNC => 0x7FF6_0000_0000_0000 case CLOSURE => 0xFFF6_0000_0000_0000
            case _ => 0x7FF7_0000_0000_0000
  {
    var (tag, variant) := RefParts(t);
    RefFields(tag, variant, id, offset);
  }

  lemma RefType(w: Duck, t: Tag, id: UInt16, offset: UInt32)
    requires IsRef(t)
    requires w == TWO63 * RefParts(t).1 + 0x7FF0_0000_0000_0000 + TWO48 * RefParts(t).0 + TWO32 * id + offset
    ensures TypeOf(w) == t
  {
    var (tag, variant) := RefParts(t);
    BoxType(w, variant, TWO48 * tag + TWO32 * id + offset);
    SplitRef(w, tag, variant, id, offset);
    assert Code(t) == 2 * tag + variant + 1;
    assert Code(TypeOf(w)) == Code(t);
    assert TagAt(Code(TypeOf(w))) == TagAt(Code(t));
  }

  lemma PackPParts(t: Tag)
    requires IsRef(t)
    ensures var byte: Word := (Code(t) - 1) % 0x100;
            (WordOp(And, Shr(byte, 1), 7) as int, WordOp(And, byte, 1) as int) == RefParts(t)
  {
    var byte: Word := (Code(t) - 1) % 0x100;
    assert byte == Code(t) - 1;
    PlaceIsPow2(1, 2);
    ShrIsDiv(byte, 1);
    LowFields(byte);
    LowFields(byte / 2);
  }

  lemma RefFields(tag: int, variant: int, id: UInt16, offset: UInt32)
    requires 0 <= tag < 8 && 0 <= variant < 2
    ensures WordOp(Or, WordOp(Or, WordOp(Or, WordOp(Or, FULL_EXP, Shl(tag, 48)), Shl(id, 32)), offset),
                   Shl(variant, 63))
         == TWO63 * variant + FULL_EXP + TWO48 * tag + TWO32 * id + offset
  {
    ShlField(tag, 48, TWO48);
    ShlField(id, 32, TWO32);
    ShlField(variant, 63, TWO63);
    var a: Word := FULL_EXP + TWO48 * tag;
    OrAdd(FULL_EXP, TWO48 * tag, 52, TWO52, 0x7FF);
    OrAdd(a, TWO32 * id, 48, TWO48, 0x7FF0 + tag);
    OrAdd(a + TWO32 * id, offset, 32, TWO32, 0x10000 * (0x7FF0 + tag) + id);
    OrAdd(TWO63 * variant, a + TWO32 * id + offset, 63, TWO63, variant);
  }

  lemma SplitRef(w: int, tag: int, variant: int, id: UInt16, offset: UInt32)
    requires w == TWO63 * variant + 0x7FF0_0000_0000_0000 + TWO48 * tag + TWO32 * id + offset
    requires 0 <= tag < 8 && 0 <= variant < 2
    ensures w % TWO32 == offset && w / TWO32 % 0x1_0000 == id
    ensures (TWO48 * tag + TWO32 * id + offset) / TWO48 == tag
  {
  }

  lemma UnpackRef(w: Duck)
    ensures ArenaIdOf(w) == w / TWO32 % 0x1_0000
    ensures OffsetOf(w) == w % TWO32
  {
    Pow2Values();
    AndField(w, 0x0000_FFFF_0000_0000, 32, 16);
    Shifts(WordOp(And, w, 0x0000_FFFF_0000_0000));
    AndLow(w, 0xFFFF_FFFF, 32);
  }
}

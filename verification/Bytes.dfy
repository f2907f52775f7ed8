/**
 The bytes of a memory of 64-bit words, eight to a word, lowest first.
 */
module Bytes {
  import opened Bits

  // Byte k of a word.
  function ByteOf(w: nat, k: nat): (b: int)
    ensures 0 <= b < 256
    decreases k
  {
    if k == 0 then w % 256 else ByteOf(w / 256, k - 1)
  }

  function SetByte(w: nat, k: nat, c: int): (r: nat)
    requires 0 <= c < 256
    decreases k
  {
    if k == 0 then w - w % 256 + c else SetByte(w / 256, k - 1, c) * 256 + w % 256
  }

  function PlaceOf(n: nat): (p: nat)
    ensures p > 0
  {
    if n == 0 then 1 else 256 * PlaceOf(n - 1)
  }

  // Setting a byte changes that byte, and no other.
  lemma {:induction false} SetByteBytes(w: nat, k: nat, c: int, j: nat)
    requires 0 <= c < 256
    ensures ByteOf(SetByte(w, k, c), j) == if j == k then c else ByteOf(w, j)
    decreases k
  {
    if k == 0 {
      DivUnique(w - w % 256 + c, 256, w / 256, c);
    } else {
      DivUnique(SetByte(w / 256, k - 1, c) * 256 + w % 256, 256, SetByte(w / 256, k - 1, c), w % 256);
      if j > 0 {
        SetByteBytes(w / 256, k - 1, c, j - 1);
      }
    }
  }

  lemma {:induction false} SetByteFits(w: nat, k: nat, c: int, n: nat)
    requires 0 <= c < 256 && k < n && w < PlaceOf(n)
    ensures SetByte(w, k, c) < PlaceOf(n)
    decreases k
  {
    if k > 0 {
      SetByteFits(w / 256, k - 1, c, n - 1);
    }
  }

  // A byte is what C reads there on a little-endian machine.
  lemma {:induction false} ByteIsShift(w: nat, k: nat)
    ensures ByteOf(w, k) == w / Pow2(8 * k) % 256
    decreases k
  {
    if k > 0 {
      ByteIsShift(w / 256, k - 1);
      assert Pow2(8) == 256;
      Pow2Sum(8, 8 * (k - 1));
      DivTwice(w, 256, Pow2(8 * (k - 1)));
    }
  }

  lemma DivTwice(w: nat, a: nat, b: nat)
    requires a > 0 && b > 0
    ensures w / a / b == w / (a * b)
  {
    var x := w / a;
    NestedParts(w, a, b, x, w % a, x / b, x % b);
    DivUnique(w, a * b, x / b, a * (x % b) + w % a);
  }

  lemma NestedParts(w: int, a: int, b: int, x: int, s: int, q: int, r: int)
    requires w == a * x + s && 0 <= s < a && x == b * q + r && 0 <= r < b
    ensures w == a * b * q + (a * r + s) && 0 <= a * r + s < a * b
  {
    assert a * x == a * b * q + a * r by {
      assert x == b * q + r;
    }
    Products(a, b, r);
  }

  lemma Products(a: int, b: int, r: int)
    requires a > 0 && 0 <= r < b
    ensures 0 <= a * r <= a * b - a
  {
    var d := b - 1 - r;
    assert a * b == a * r + a + a * d by {
      assert b == r + 1 + d;
    }
    NotNegative(a, d);
    NotNegative(a, r);
  }

  lemma NotNegative(a: nat, d: nat)
    ensures a * d >= 0
  {
  }

  // ---- Text in memory ----

  // Character i of the bytes that start at word base.
  function CharAt(mem: seq<Word>, base: int, i: int): char
    requires 0 <= i && 0 <= base && base + i / 8 < |mem|
  {
    ByteOf(mem[base + i / 8], i % 8) as char
  }

  predicate AreBytes(s: string) {
    forall i :: 0 <= i < |s| ==> s[i] as int < 256
  }

  // The memory with one byte changed.
  function WithChar(mem: seq<Word>, base: int, i: int, c: char): (r: seq<Word>)
    requires 0 <= i && 0 <= base && base + i / 8 < |mem| && c as int < 256
  {
    var w := mem[base + i / 8];
    assert PlaceOf(8) == TWO64;
    SetByteFits(w, i % 8, c as int, 8);
    mem[base + i / 8 := SetByte(w, i % 8, c as int)]
  }

  // A character is a byte of the memory at that address, little-endian.
  lemma CharIsByte(mem: seq<Word>, base: int, i: int)
    requires 0 <= i && 0 <= base && base + i / 8 < |mem|
    ensures CharAt(mem, base, i) as int == mem[base + i / 8] / Pow2(8 * (i % 8)) % 256
  {
    ByteIsShift(mem[base + i / 8], i % 8);
  }

  lemma WithCharChars(mem: seq<Word>, base: int, i: int, c: char, j: int)
    requires 0 <= i && 0 <= base && base + i / 8 < |mem| && c as int < 256 && 0 <= j && base + j / 8 < |mem|
    ensures CharAt(WithChar(mem, base, i, c), base, j) == if j == i then c else CharAt(mem, base, j)
  {
    SetByteBytes(mem[base + i / 8], i % 8, c as int, j % 8);
    assert j / 8 == i / 8 && j % 8 == i % 8 ==> j == i;
  }
}

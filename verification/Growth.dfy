/**
 What growing a list by appends costs: elements copied, and arena units used up by the blocks
 the list leaves behind.
 */
module Growth {
  import opened Bits
  import opened Wrappers
  import opened Arenas
  import opened Memory

  // Units used by the blocks of a list that grew to capacity c.
  function Units(c: int): int
    decreases if c > 0 then c else 0
  {
    if c <= DEF_SIZE then BlockSize(DEF_SIZE) else Units(c / 2) + BlockSize(c)
  }

  lemma {:induction false} UnitsInTotal(k: nat)
    ensures Units(DEF_SIZE * Pow2(k)) == 8 * (k + 1) + 16 * (DEF_SIZE * Pow2(k)) - 256
    decreases k
  {
    if k > 0 {
      UnitsInTotal(k - 1);
      assert DEF_SIZE * Pow2(k) / 2 == DEF_SIZE * Pow2(k - 1);
    }
  }

  // The capacities are exactly the numbers 32 * 2^k.
  lemma {:induction false} CapsArePowers(c: int)
    ensures IsCap(c) <==> exists k: nat :: c == DEF_SIZE * Pow2(k)
    decreases if c > 0 then c else 0
  {
    if IsCap(c) {
      if c == DEF_SIZE {
        assert c == DEF_SIZE * Pow2(0);
      } else {
        CapsArePowers(c / 2);
        var k: nat :| c / 2 == DEF_SIZE * Pow2(k);
        assert c == DEF_SIZE * Pow2(k + 1);
      }
    }
    forall k: nat | c == DEF_SIZE * Pow2(k)
      ensures IsCap(c)
    {
      CapIsPower(k);
    }
  }

  // Every list has a capacity of 32 * 2^k, at most 2^28, whatever was done to it: doubling it
  // never leaves uint32_t, and the size guard of the doubling, at 2^31, is never the one to fail.
  lemma CapacityInvariant(a: Arena, off: int)
    requires a.Valid() && a.IsList(off)
    ensures var b := a.blocks[off];
            && |b.items| <= b.cap <= 0x1000_0000 && 2 * b.cap < MAX_CAP < TWO32
            && exists k: nat :: b.cap == DEF_SIZE * Pow2(k)
  {
    a.MetaOf(off);
    assert Holds(a.memory, off, a.blocks[off]);
    CapsArePowers(a.blocks[off].cap);
  }

  // One more element needs twice the capacity exactly when the list is full.
  lemma {:induction false} CapForNext(len: int, c: int)
    requires c > 0 && len >= 0
    ensures var r := CapFor(len, c);
            c <= r && len <= r && CapFor(len + 1, c) == if len < r then r else 2 * r
    decreases len - c
  {
    if c < len {
      CapForNext(len, 2 * c);
    }
  }

  // The last doubling happened because half the capacity was too small.
  lemma {:induction false} FewCopies(n: int)
    requires n > 0
    ensures CapFor(n, DEF_SIZE) - DEF_SIZE < 2 * n
  {
    assert IsCap(DEF_SIZE);
    CapForIsLeast(n, DEF_SIZE);
  }

  // Units grow with the number of elements.
  lemma {:induction false} UnitsRise(len: int, n: int, c: int)
    requires IsCap(c) && 0 <= len <= n
    ensures Units(CapFor(len, c)) <= Units(CapFor(n, c))
    decreases n - c
  {
    assert IsCap(2 * c);
    if c < len {
      UnitsRise(len, n, 2 * c);
    } else {
      UnitsFrom(n, c);
    }
  }

  lemma {:induction false} UnitsFrom(n: int, c: int)
    requires IsCap(c)
    ensures Units(c) <= Units(CapFor(n, c))
    decreases n - c
  {
    if c < n {
      assert IsCap(2 * c) && Units(2 * c) == Units(c) + BlockSize(2 * c);
      UnitsFrom(n, 2 * c);
    }
  }

  // A new list, then one append after the other: where the list ends up, what it holds, and how
  // many elements were copied by its moves.
  method AppendAll(a: Arena, values: seq<Word>) returns (off: int, ghost copies: int)
    requires a.Valid() && a.top + Units(CapFor(|values|, DEF_SIZE)) <= TWO32
    modifies a
    ensures a.Valid() && off !in old(a.blocks)
    ensures a.blocks == old(a.blocks)[off := Block(CapFor(|values|, DEF_SIZE), values)]
    ensures a.top == old(a.top) + Units(CapFor(|values|, DEF_SIZE))
    ensures copies == CapFor(|values|, DEF_SIZE) - DEF_SIZE && (values != [] ==> copies < 2 * |values|)
  {
    off := CreateEmpty(a, |values|);
    copies := 0;
    for i := 0 to |values|
      invariant a.Valid() && off !in old(a.blocks)
      invariant a.blocks == old(a.blocks)[off := Block(CapFor(i, DEF_SIZE), values[..i])]
      invariant a.top == old(a.top) + Units(CapFor(i, DEF_SIZE))
      invariant copies == CapFor(i, DEF_SIZE) - DEF_SIZE
    {
      UnitsRise(i + 1, |values|, DEF_SIZE);
      ghost var copied;
      off, copied := AppendOne(a, off, values[i], i, old(a.blocks));
      copies := copies + copied;
      assert values[..i] + [values[i]] == values[..i + 1];
    }
    assert values[..|values|] == values;
    if values != [] {
      FewCopies(|values|);
    }
  }

  method CreateEmpty(a: Arena, ghost n: nat) returns (off: int)
    requires a.Valid() && a.top + Units(CapFor(n, DEF_SIZE)) <= TWO32
    modifies a
    ensures a.Valid() && off !in old(a.blocks) && a.blocks == old(a.blocks)[off := Block(DEF_SIZE, [])]
    ensures a.top == old(a.top) + Units(DEF_SIZE)
  {
    UnitsFrom(n, DEF_SIZE);
    var r := a.ListCreate(None, 0);
    off := r.value;
  }

  method AppendOne(a: Arena, off: int, value: Word, ghost i: nat, ghost others: map<int, Block>)
    returns (off': int, ghost copied: int)
    requires a.Valid() && off !in others && a.IsList(off) && |a.blocks[off].items| == i
    requires a.blocks == others[off := Block(CapFor(i, DEF_SIZE), a.blocks[off].items)]
    requires a.top + Units(CapFor(i + 1, DEF_SIZE)) - Units(CapFor(i, DEF_SIZE)) <= TWO32
    modifies a
    ensures a.Valid() && off' !in others
    ensures a.blocks == others[off' := Block(CapFor(i + 1, DEF_SIZE), old(a.blocks)[off].items + [value])]
    ensures a.top == old(a.top) + Units(CapFor(i + 1, DEF_SIZE)) - Units(CapFor(i, DEF_SIZE))
    ensures copied == CapFor(i + 1, DEF_SIZE) - CapFor(i, DEF_SIZE) == if off' == off then 0 else i
  {
    CapForNext(i, DEF_SIZE);
    var r := a.ListAppend(off, value);
    off' := r.value;
    copied := if off' == off then 0 else i;
  }
}

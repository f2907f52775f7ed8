/**
 What is stored in the memory of an arena. A list block is one word of metadata (length in the
 low half, capacity in the high half) followed by the elements; a string block is one word for
 the length, followed by the bytes, eight to a word. The block that is reserved is larger: the
 allocator counts words, and its callers ask for bytes.
 */
module Memory {
  import opened Bits
  import opened Bytes
  import opened Sequences

  const DEF_SIZE: int := 32
  const MAX_CAP: int := 0x8000_0000

  // ---- List metadata ----

  function Meta(len: int, cap: int): Word
    requires 0 <= len < TWO32 && 0 <= cap < TWO32
  {
    len + cap * TWO32
  }

  function LenOf(w: Word): int {
    w % TWO32
  }

  function CapOf(w: Word): int {
    w / TWO32
  }

  lemma MetaFields(len: int, cap: int)
    requires 0 <= len < TWO32 && 0 <= cap < TWO32
    ensures LenOf(Meta(len, cap)) == len && CapOf(Meta(len, cap)) == cap
  {
  }

  // As the struct has them in memory: the length in the lower 32 bits, the capacity in the upper ones.
  lemma MetaLayout(len: int, cap: int)
    requires 0 <= len < TWO32 && 0 <= cap < TWO32
    ensures Meta(len, cap) % 0x1_0000_0000 == len && Meta(len, cap) / 0x1_0000_0000 == cap
  {
    DivUnique(Meta(len, cap), TWO32, cap, len);
  }

  // ---- Capacities ----

  // 32 doubled some number of times.
  predicate IsCap(c: int)
    decreases if c > 0 then c else 0
  {
    c == DEF_SIZE || (c > DEF_SIZE && c % 2 == 0 && IsCap(c / 2))
  }

  // What arena_alloc is asked for by a list of capacity c.
  function BlockSize(c: int): int {
    8 + 8 * c
  }

  lemma {:induction false} CapBelow(c: int, m: int)
    requires IsCap(c) && IsCap(m) && c < 2 * m
    ensures c <= m
    decreases if c > 0 then c else 0
  {
    if c > DEF_SIZE && m > DEF_SIZE {
      CapBelow(c / 2, m / 2);
    }
  }

  // A list that fits an arena has capacity at most 2^28.
  lemma CapBound(c: int)
    requires IsCap(c) && BlockSize(c) <= TWO32
    ensures DEF_SIZE <= c <= 0x1000_0000
  {
    BigCaps();
    CapBelow(c, 0x1000_0000);
    CapPositive(c);
  }

  lemma BigCaps()
    ensures IsCap(0x1000_0000) && IsCap(0x4000_0000)
  {
    CapIsPower(23);
    CapIsPower(25);
    assert Pow2(23) == 0x80_0000 by {
      Pow2Sum(12, 11);
    }
  }

  lemma {:induction false} CapIsPower(k: nat)
    ensures IsCap(DEF_SIZE * Pow2(k))
    decreases k
  {
    if k > 0 {
      CapIsPower(k - 1);
      assert DEF_SIZE * Pow2(k) / 2 == DEF_SIZE * Pow2(k - 1);
    }
  }

  lemma CapPositive(c: int)
    requires IsCap(c)
    ensures c >= DEF_SIZE
  {
  }

  // The first capacity a list of len elements gets.
  function CapFor(len: int, c: int): int
    requires c > 0
    decreases len - c
  {
    if c < len then CapFor(len, 2 * c) else c
  }

  // Doubling stays within 2^31, and so within uint32_t, as long as it is needed.
  lemma NextCap(len: int, c: int)
    requires IsCap(c) && c < len <= MAX_CAP
    ensures IsCap(2 * c) && 2 * c <= MAX_CAP
  {
    CapPositive(c);
    assert 2 * c / 2 == c;
    BigCaps();
    CapBelow(c, 0x4000_0000);
  }

  lemma {:induction false} CapForIsLeast(len: int, c: int)
    requires IsCap(c)
    ensures var r := CapFor(len, c);
            && IsCap(r) && c <= r && len <= r && (r == c || r < 2 * len)
            && (len <= MAX_CAP && c <= MAX_CAP ==> r <= MAX_CAP)
    decreases len - c
  {
    if c < len {
      CapForIsLeast(len, 2 * c);
      if len <= MAX_CAP {
        NextCap(len, c);
      }
    }
  }

  // The exact sizes: with the least k such that 32 * 2^k is not below the length, a new list gets that
  // capacity, and its block eight words more than eight times as many.
  lemma {:induction false} CapForIsPower(len: int, j: nat, k: nat)
    requires j <= k && len <= 32 * Pow2(k) && (j < k ==> 32 * Pow2(k - 1) < len)
    ensures CapFor(len, 32 * Pow2(j)) == 32 * Pow2(k)
    decreases k - j
  {
    if j < k {
      PowBelow(j, k - 1);
      CapForIsPower(len, j + 1, k);
    }
  }

  lemma {:induction false} PowBelow(j: nat, k: nat)
    requires j <= k
    ensures Pow2(j) <= Pow2(k)
    decreases k
  {
    if j < k {
      PowBelow(j, k - 1);
    }
  }

  lemma SizeOfList(len: int, k: nat)
    requires len <= 32 * Pow2(k) && (k > 0 ==> 32 * Pow2(k - 1) < len)
    ensures CapFor(len, DEF_SIZE) == 32 * Pow2(k) && BlockSize(CapFor(len, DEF_SIZE)) == 8 + 8 * (32 * Pow2(k))
  {
    CapForIsPower(len, 0, k);
  }

  // ---- Repetition ----

  // The length list_mult asks for, in uint32_t.
  function MultLength(len: nat, times: int): (r: int)
    ensures 0 <= r < TWO32
  {
    len * (times % TWO32) % TWO32
  }

  // The product leaves uint32_t.
  predicate MultWraps(len: nat, times: int) {
    len * (times % TWO32) >= TWO32
  }

  // In terms of the count as uint32_t: n, where the count is n plus a multiple of 2^32.
  lemma MultIsUnsigned(len: nat, times: int, n: nat, k: int)
    requires times == n + 0x1_0000_0000 * k && n < 0x1_0000_0000
    ensures MultLength(len, times) == len * n % 0x1_0000_0000
    ensures MultWraps(len, times) <==> len * n >= 0x1_0000_0000
  {
    DivUnique(times, TWO32, k, n);
  }

  lemma MultCopies(xs: seq<Word>, times: int)
    requires !MultWraps(|xs|, times)
    ensures |Repeat(xs, times % TWO32)| == MultLength(|xs|, times)
  {
    RepeatLength(xs, times % TWO32);
  }

  // Some copy, at its offset in uint32_t, starts behind the block that is allocated.
  ghost predicate LeavesBlock(len: nat, times: int) {
    exists i :: 0 <= i < times % TWO32 && i * len % TWO32 >= BlockSize(CapFor(MultLength(len, times), DEF_SIZE))
  }

  // Which copy that is.
  lemma EscapingCopy(len: nat, times: int) returns (i: nat)
    requires LeavesBlock(len, times)
    ensures i < times % 0x1_0000_0000
    ensures i * len % 0x1_0000_0000 >= BlockSize(CapFor(MultLength(len, times), DEF_SIZE))
  {
    i :| 0 <= i < times % TWO32 && i * len % TWO32 >= BlockSize(CapFor(MultLength(len, times), DEF_SIZE));
  }

  // Where the length wraps to one whose block can be allocated, some copy starts behind the block.
  lemma MultEscapes(len: nat, times: int)
    requires len <= 0x1000_0000 && MultWraps(len, times)
    requires BlockSize(CapFor(MultLength(len, times), DEF_SIZE)) <= TWO32
    ensures LeavesBlock(len, times)
  {
    var t, c := times % TWO32, CapFor(MultLength(len, times), DEF_SIZE);
    assert IsCap(DEF_SIZE);
    CapForIsLeast(MultLength(len, times), DEF_SIZE);
    CapBound(c);
    var i := (TWO32 - 1) / len;
    LastCopy(len, t, i);
    assert i * len % TWO32 == i * len;
  }

  // The last copy that starts in uint32_t.
  lemma LastCopy(len: nat, t: nat, i: int)
    requires 0 < len && len * t >= TWO32 && i == (TWO32 - 1) / len
    ensures 0 <= i < t && TWO32 - len <= i * len < TWO32
  {
    assert TWO32 - 1 == len * i + (TWO32 - 1) % len;
    if t <= i {
      RepeatLonger(len, t, i);
    }
  }

  // [a, b] * 2^31: the length wraps to 0, and the copies run over the whole address range.
  lemma WrappedRepetition(a: Word, b: Word)
    ensures var xs, times := [a, b], 0x8000_0000;
            && Repeat(xs, times % TWO32) == PythonRepeat(xs, times)
            && MultLength(|xs|, times) == 0 && MultWraps(|xs|, times)
            && LeavesBlock(|xs|, times)
  {
    RepeatIsPython([a, b], 0x8000_0000);
    MultEscapes(2, 0x8000_0000);
  }

  // ---- Blocks in memory ----

  // Where a block is: the arena and the offset that its duck names.
  datatype Ref = Ref(id: int, off: int)

  // A live list, with its capacity and its elements, or a live string, with its first sizing.
  datatype Block = Block(cap: int, items: seq<Word>) | TextBlock(cap: int, chars: string)

  function TextSize(c: int): int {
    8 + c + 1
  }

  // The words that are reserved.
  function Size(b: Block): int {
    if b.Block? then BlockSize(b.cap) else TextSize(b.cap)
  }

  ghost predicate BlockOk(b: Block) {
    if b.Block? then IsCap(b.cap) && |b.items| <= b.cap < TWO32 else |b.chars| <= b.cap
  }

  // The block is stored at offset off.
  ghost predicate Holds(mem: seq<Word>, off: int, b: Block) {
    && BlockOk(b) && 0 <= off && off + Size(b) <= |mem|
    && if b.Block? then HoldsList(mem, off, b.cap, b.items) else HoldsText(mem, off, b.chars)
  }

  ghost predicate HoldsList(mem: seq<Word>, off: int, cap: int, items: seq<Word>)
    requires 0 <= off && off + 1 + |items| <= |mem| && |items| < TWO32 && 0 <= cap < TWO32
  {
    mem[off] == Meta(|items|, cap) && mem[off + 1..off + 1 + |items|] == items
  }

  ghost predicate HoldsText(mem: seq<Word>, off: int, chars: string)
    requires 0 <= off && off + 1 + |chars| <= |mem|
  {
    && mem[off] == |chars|
    && forall i {:trigger CharAt(mem, off + 1, i)} :: 0 <= i < |chars| ==> CharAt(mem, off + 1, i) == chars[i]
  }

  ghost predicate Apart(o1: int, n1: int, o2: int, n2: int) {
    o1 + n1 <= o2 || o2 + n2 <= o1
  }

  // Every live block is stored below the top, and no two overlap.
  ghost predicate AllHeld(mem: seq<Word>, blocks: map<int, Block>, top: int) {
    && top <= |mem|
    && (forall o {:trigger Holds(mem, o, blocks[o])} :: o in blocks ==>
         Holds(mem, o, blocks[o]) && o + Size(blocks[o]) <= top)
    && (forall o, p {:trigger Apart(o, Size(blocks[o]), p, Size(blocks[p]))} :: o in blocks && p in blocks && o != p ==>
          Apart(o, Size(blocks[o]), p, Size(blocks[p])))
  }

  lemma SizePositive(b: Block)
    requires BlockOk(b)
    ensures Size(b) >= 9 + if b.Block? then |b.items| else |b.chars|
  {
    if b.Block? {
      CapPositive(b.cap);
    }
  }

  // A block is read from its own words alone.
  lemma HoldsSame(mem: seq<Word>, mem': seq<Word>, off: int, b: Block)
    requires Holds(mem, off, b) && |mem| <= |mem'|
    requires forall k :: off <= k < off + Size(b) ==> mem'[k] == mem[k]
    ensures Holds(mem', off, b)
  {
    SizePositive(b);
    if b.Block? {
      assert mem'[off + 1..off + 1 + |b.items|] == mem[off + 1..off + 1 + |b.items|];
    } else {
      TextSame(mem, mem', off, b.chars);
    }
  }

  lemma TextSame(mem: seq<Word>, mem': seq<Word>, off: int, chars: string)
    requires 0 <= off && off + 1 + |chars| <= |mem| <= |mem'| && HoldsText(mem, off, chars)
    requires forall k :: off <= k <= off + |chars| ==> mem'[k] == mem[k]
    ensures HoldsText(mem', off, chars)
  {
    forall i | 0 <= i < |chars|
      ensures CharAt(mem', off + 1, i) == chars[i]
    {
      assert off <= off + 1 + i / 8 <= off + |chars|;
      assert CharAt(mem', off + 1, i) == CharAt(mem, off + 1, i);
    }
  }

  lemma HoldsCopy(mem: seq<Word>, off: int, b: Block)
    requires b.Block? && BlockOk(b) && 0 <= off && off + Size(b) <= |mem|
    requires mem[off..off + 1 + |b.items|] == [Meta(|b.items|, b.cap)] + b.items
    ensures Holds(mem, off, b)
  {
    var words := mem[off..off + 1 + |b.items|];
    assert words[0] == mem[off] && words[1..] == mem[off + 1..off + 1 + |b.items|];
  }

  lemma OverwrittenCopy(mem: seq<Word>, off: int, b: Block, meta: Word)
    requires Holds(mem, off, b) && b.Block?
    ensures mem[off := meta][off..off + 1 + |b.items|] == [meta] + b.items
  {
  }

  // Memory that grows at its end keeps every block.
  lemma GrowKeeps(mem: seq<Word>, mem': seq<Word>, blocks: map<int, Block>, top: int, top': int)
    requires AllHeld(mem, blocks, top) && mem <= mem' && top <= top' <= |mem'|
    ensures AllHeld(mem', blocks, top')
  {
    forall o | o in blocks
      ensures Holds(mem', o, blocks[o]) && o + Size(blocks[o]) <= top
    {
      assert Holds(mem, o, blocks[o]);
      HoldsSame(mem, mem', o, blocks[o]);
    }
  }

  // Writing inside one block keeps the others.
  lemma WriteKeeps(mem: seq<Word>, mem': seq<Word>, blocks: map<int, Block>, top: int, off: int, b: Block)
    requires AllHeld(mem, blocks, top) && off in blocks && Size(b) == Size(blocks[off])
    requires |mem'| == |mem| && forall k :: 0 <= k < |mem| && !(off <= k < off + Size(b)) ==> mem'[k] == mem[k]
    requires Holds(mem', off, b)
    ensures AllHeld(mem', blocks[off := b], top)
  {
    assert Holds(mem, off, blocks[off]);
    forall o | o in blocks && o != off
      ensures Holds(mem', o, blocks[o]) && o + Size(blocks[o]) <= top
    {
      assert Holds(mem, o, blocks[o]);
      assert Apart(o, Size(blocks[o]), off, Size(blocks[off]));
      HoldsSame(mem, mem', o, blocks[o]);
    }
  }

  // A block between the old and the new top is apart from all others.
  lemma AddKeeps(mem: seq<Word>, blocks: map<int, Block>, top: int, top': int, off: int, b: Block)
    requires AllHeld(mem, blocks, top) && top <= off && off + Size(b) <= top' <= |mem|
    requires Holds(mem, off, b)
    ensures off !in blocks && AllHeld(mem, blocks[off := b], top')
  {
    SizePositive(b);
    forall o | o in blocks
      ensures Holds(mem, o, blocks[o]) && o + Size(blocks[o]) <= off && o != off
    {
      assert Holds(mem, o, blocks[o]);
      SizePositive(blocks[o]);
    }
  }

  // Writing at or above the top touches no block.
  lemma WriteAbove(mem: seq<Word>, mem': seq<Word>, blocks: map<int, Block>, top: int)
    requires AllHeld(mem, blocks, top) && |mem'| == |mem|
    requires forall k :: 0 <= k < top ==> mem'[k] == mem[k]
    ensures AllHeld(mem', blocks, top)
  {
    forall o | o in blocks
      ensures Holds(mem', o, blocks[o]) && o + Size(blocks[o]) <= top
    {
      assert Holds(mem, o, blocks[o]);
      HoldsSame(mem, mem', o, blocks[o]);
    }
  }

  // Overwriting the metadata of a block keeps the other blocks.
  lemma KeptWithout(mem: seq<Word>, mem': seq<Word>, blocks: map<int, Block>, top: int, off: int)
    requires AllHeld(mem, blocks, top) && off in blocks && |mem'| == |mem|
    requires forall k :: 0 <= k < |mem| && k != off ==> mem'[k] == mem[k]
    ensures AllHeld(mem', blocks - {off}, top)
  {
    var rest := blocks - {off};
    assert Holds(mem, off, blocks[off]);
    SizePositive(blocks[off]);
    forall o | o in rest
      ensures Holds(mem', o, rest[o]) && o + Size(rest[o]) <= top
    {
      assert Holds(mem, o, blocks[o]);
      assert Apart(o, Size(blocks[o]), off, Size(blocks[off]));
      HoldsSame(mem, mem', o, blocks[o]);
    }
  }
}

/**
 One arena: a bump allocator over a memory of 64-bit words that grows by doubling, and the
 growable lists and the strings that live in it.
 */
module Arenas {
  import opened Bits
  import opened Memory
  import opened Sequences
  import opened Wrappers

  const ARENA_DEF_SIZE: int := 10
  const ARENA_MAX_SIZE: int := 32

  // ---- The arena ----

  // The exponent arena_alloc grows to: the least one from `log` on that leaves room for size
  // words, or 32.
  function GrownLog(log: int, bumper: int, size: int): int
    requires 0 <= log <= ARENA_MAX_SIZE
    decreases ARENA_MAX_SIZE - log
  {
    if Pow2(log) - bumper < size && log < ARENA_MAX_SIZE then GrownLog(log + 1, bumper, size) else log
  }

  lemma {:induction false} GrownLogIsLeast(log: int, bumper: int, size: int)
    requires 0 <= log <= ARENA_MAX_SIZE && bumper <= Pow2(log)
    ensures var g := GrownLog(log, bumper, size);
            && log <= g <= ARENA_MAX_SIZE && Pow2(log) <= Pow2(g)
            && (bumper + size <= Pow2(ARENA_MAX_SIZE) <==> bumper + size <= Pow2(g))
            && (log < g ==> Pow2(g - 1) < bumper + size)
    decreases ARENA_MAX_SIZE - log
  {
    PowBelow(log, ARENA_MAX_SIZE);
    if Pow2(log) - bumper < size && log < ARENA_MAX_SIZE {
      GrownLogIsLeast(log + 1, bumper, size);
      var g := GrownLog(log + 1, bumper, size);
      if g == log + 1 {
        assert Pow2(g - 1) == Pow2(log);
      }
    }
  }

  // The memory stays where it is exactly when it has the room already.
  lemma GrownLogStays(log: int, bumper: int, size: int)
    requires 0 <= log <= ARENA_MAX_SIZE && bumper + size <= TWO32
    ensures GrownLog(log, bumper, size) == log <==> bumper + size <= Pow2(log)
  {
    Pow2Values();
    if log < ARENA_MAX_SIZE && bumper + size > Pow2(log) {
      GrownLogRises(log + 1, bumper, size);
    }
  }

  lemma {:induction false} GrownLogRises(log: int, bumper: int, size: int)
    requires 0 <= log <= ARENA_MAX_SIZE
    ensures GrownLog(log, bumper, size) >= log
    decreases ARENA_MAX_SIZE - log
  {
    if Pow2(log) - bumper < size && log < ARENA_MAX_SIZE {
      GrownLogRises(log + 1, bumper, size);
    }
  }

  lemma InUInt32(n: int)
    requires 0 <= n <= TWO32
    ensures n % TWO32 == if n == TWO32 then 0 else n
  {
  }

  class Arena {
    var memory: seq<Word>
    var bumper: int
    var id: int
    var logCap: int
    ghost var blocks: map<int, Block>
    ghost var top: int

    // A zeroed struct.
    constructor ()
      ensures memory == [] && bumper == 0 && id == 0 && logCap == 0 && blocks == map[] && top == 0
    {
      memory, bumper, id, logCap, blocks, top := [], 0, 0, 0, map[], 0;
    }

    // The bumper is the number of words handed out, modulo 2^32.
    ghost predicate Shaped()
      reads this
    {
      && 0 <= logCap <= ARENA_MAX_SIZE && |memory| == Pow2(logCap)
      && 0 <= top <= TWO32 && bumper == if Full() then 0 else top
    }

    ghost predicate Valid()
      reads this
    {
      Shaped() && AllHeld(memory, blocks, top)
    }

    // All 2^32 words are handed out. The 32-bit bumper is 0, as if none were.
    ghost predicate Full()
      reads this
    {
      top == TWO32
    }

    ghost predicate IsList(off: int)
      reads this
    {
      off in blocks && blocks[off].Block?
    }

    // The memory need not move for size words. A raw pointer into it that was taken before is good
    // afterwards exactly when logCap is the same: realloc is called only to raise it.
    ghost predicate Stays(size: int)
      reads this
    {
      bumper + size <= |memory|
    }

    // The offset of size fresh words; None is the panic. A full arena hands out words from the
    // start again: they overlap the live blocks that begin among them.
    method Alloc(size: int) returns (r: Option<int>)
      requires Valid() && size > 0
      modifies this
      ensures id == old(id) && blocks == old(blocks) && old(memory) <= memory
      ensures r == None <==> old(bumper) + size > TWO32
      ensures r == None ==> unchanged(this)
      ensures r.Some? ==> r.value == old(bumper) && bumper == (old(bumper) + size) % TWO32
      ensures r.Some? ==> 0 <= logCap == GrownLog(old(logCap), old(bumper), size) && |memory| == Pow2(logCap)
      ensures r.Some? ==> (logCap == old(logCap) <==> old(Stays(size)))
      ensures r.Some? && !old(Full()) ==>
                Valid() && top == r.value + size && AllHeld(memory, blocks, r.value)
      ensures r.Some? && old(Full()) ==>
                r.value == 0 && forall o :: o in blocks ==> (Apart(0, size, o, Size(blocks[o])) <==> o >= size)
    {
      var ok := MakeRoom(size);
      if !ok {
        return None;
      }
      GrownLogStays(old(logCap), bumper, size);
      r := Some(bumper);
      InUInt32(bumper + size);
      bumper := (bumper + size) % TWO32;
      if Full() {
        StartsOver(size);
      } else {
        GrowKeeps(memory, memory, blocks, top, r.value + size);
        top := r.value + size;
      }
    }

    lemma StartsOver(size: int)
      requires size > 0 && AllHeld(memory, blocks, top)
      ensures forall o :: o in blocks ==> (Apart(0, size, o, Size(blocks[o])) <==> o >= size)
    {
      forall o | o in blocks
        ensures Apart(0, size, o, Size(blocks[o])) <==> o >= size
      {
        assert Holds(memory, o, blocks[o]);
        SizePositive(blocks[o]);
      }
    }

    // Doubles the capacity until size words fit; false when 2^32 words are not enough.
    method MakeRoom(size: int) returns (ok: bool)
      requires Valid() && size >= 0
      modifies this`memory, this`logCap
      ensures Valid() && old(memory) <= memory
      ensures ok <==> bumper + size <= TWO32
      ensures if ok then logCap == GrownLog(old(logCap), bumper, size) && bumper + size <= |memory| else unchanged(this)
    {
      var cap, log := DoubleUntil(size);
      ok := cap - bumper >= size;
      if ok && log > logCap {
        MemoryResize(log);
      }
    }

    method DoubleUntil(size: int) returns (cap: int, log: int)
      requires Valid() && size >= 0
      ensures logCap <= log <= ARENA_MAX_SIZE && log == GrownLog(logCap, bumper, size) && cap == Pow2(log)
      ensures bumper <= cap <= TWO32 && (cap - bumper < size <==> bumper + size > TWO32)
    {
      cap, log := Pow2(logCap), logCap;
      while cap - bumper < size && log < ARENA_MAX_SIZE
        invariant logCap <= log <= ARENA_MAX_SIZE && cap == Pow2(log)
        invariant GrownLog(log, bumper, size) == GrownLog(logCap, bumper, size)
      {
        cap := cap * 2;
        log := log + 1;
      }
      GrownLogIsLeast(logCap, bumper, size);
      PowBelow(log, ARENA_MAX_SIZE);
      assert Pow2(ARENA_MAX_SIZE) == TWO32 by {
        Pow2Values();
      }
    }

    // realloc: the old words stay, the new ones hold anything.
    method MemoryResize(newLog: int)
      requires Valid() && logCap < newLog <= ARENA_MAX_SIZE
      modifies this`memory, this`logCap
      ensures Valid() && logCap == newLog && old(memory) <= memory
    {
      PowBelow(logCap, newLog);
      var more := Pow2(newLog) - |memory|;
      assert |seq(more, _ => 0 as Word)| == more;
      var garbage: seq<Word> :| |garbage| == more;
      GrowKeeps(memory, memory + garbage, blocks, top, top);
      memory := memory + garbage;
      logCap := newLog;
    }

    // ---- Lists ----

    // memcpy of words into the arena.
    method Store(at: int, words: seq<Word>)
      requires 0 <= at && at + |words| <= |memory|
      modifies this`memory
      ensures memory == old(memory)[..at] + words + old(memory)[at + |words|..]
      ensures |memory| == |old(memory)| && memory[at..at + |words|] == words
      ensures forall k :: 0 <= k < |memory| && !(at <= k < at + |words|) ==> memory[k] == old(memory)[k]
    {
      memory := memory[..at] + words + memory[at + |words|..];
    }

    // The metadata word of a live list.
    lemma MetaOf(off: int)
      requires Valid() && IsList(off)
      ensures 0 <= off && off + BlockSize(blocks[off].cap) <= |memory| && DEF_SIZE <= blocks[off].cap <= 0x1000_0000
      ensures Holds(memory, off, blocks[off])
      ensures LenOf(memory[off]) == |blocks[off].items| && CapOf(memory[off]) == blocks[off].cap
      ensures |blocks[off].items| <= blocks[off].cap
                && memory[off + 1..off + 1 + |blocks[off].items|] == blocks[off].items
    {
      var b := blocks[off];
      assert Holds(memory, off, b);
      CapBound(b.cap);
      MetaFields(|b.items|, b.cap);
    }

    // The bytes of the words [off, off + 1 + |items|) now say b.
    method Commit(ghost off: int, ghost b: Block, ghost before: seq<Word>)
      requires Shaped()
      requires AllHeld(before, blocks, top) && off in blocks && Size(b) == Size(blocks[off]) && |before| == |memory|
      requires forall k :: 0 <= k < |memory| && !(off <= k < off + Size(b)) ==> memory[k] == before[k]
      requires Holds(memory, off, b)
      modifies this`blocks
      ensures Valid() && blocks == old(blocks)[off := b]
    {
      WriteKeeps(before, memory, blocks, top, off, b);
      blocks := blocks[off := b];
    }

    method ListClear(off: int)
      requires Valid() && IsList(off)
      modifies this`memory, this`blocks
      ensures Valid() && blocks == old(blocks)[off := Block(old(blocks)[off].cap, [])]
    {
      MetaOf(off);
      ghost var before := memory;
      MetaFields(0, CapOf(memory[off]));
      memory := memory[off := Meta(0, CapOf(memory[off]))];
      Commit(off, Block(blocks[off].cap, []), before);
    }

    method ListPop(off: int) returns (r: Option<Word>)
      requires Valid() && IsList(off)
      modifies this`memory, this`blocks
      ensures Valid()
      ensures var b := old(blocks)[off];
              r == Last(b.items) && blocks == old(blocks)[off := Block(b.cap, Popped(b.items))]
    {
      MetaOf(off);
      ghost var before, b := memory, blocks[off];
      var len, cap := LenOf(memory[off]), CapOf(memory[off]);
      if len == 0 {
        return None;
      }
      memory := memory[off := Meta(len - 1, cap)];
      r := Some(memory[off + len]);
      assert before[off + len] == before[off + 1..off + 1 + len][len - 1];
      Commit(off, Block(b.cap, b.items[..len - 1]), before);
    }

    // Append where there is room.
    method Push(off: int, value: Word)
      requires Valid() && IsList(off) && |blocks[off].items| < blocks[off].cap
      modifies this`memory, this`blocks
      ensures Valid() && blocks == old(blocks)[off := Block(old(blocks)[off].cap, old(blocks)[off].items + [value])]
      ensures |memory| == |old(memory)| && forall k :: 0 <= k < off && k < |memory| ==> memory[k] == old(memory)[k]
    {
      MetaOf(off);
      ghost var before, b := memory, blocks[off];
      var len, cap := LenOf(memory[off]), CapOf(memory[off]);
      memory := memory[off := Meta(len + 1, cap)];
      memory := memory[off + 1 + len := value];
      Commit(off, Block(b.cap, b.items + [value]), before);
    }

    // ---- Creation and growth ----

    // The words from off on, fresh from the allocator, now say b.
    method Install(ghost off: int, ghost b: Block, ghost before: seq<Word>)
      requires Shaped()
      requires AllHeld(before, blocks, off) && |before| == |memory| && Holds(memory, off, b)
      requires 0 <= off && off + Size(b) <= top <= |memory|
      requires forall k :: 0 <= k < off ==> memory[k] == before[k]
      modifies this`blocks
      ensures Valid() && off !in old(blocks) && blocks == old(blocks)[off := b]
    {
      WriteAbove(before, memory, blocks, off);
      AddKeeps(memory, blocks, off, top, off, b);
      blocks := blocks[off := b];
    }

    // A list of len elements: the first ones of `init`, or whatever the memory holds.
    method ListCreate(init: Option<seq<Word>>, len: int) returns (r: Option<int>)
      requires Valid() && 0 <= len < TWO32 && (init.Some? ==> |init.value| >= len)
      requires !Full()
      modifies this
      ensures Valid() && id == old(id)
      ensures r == None <==> len > MAX_CAP || old(top) + BlockSize(CapFor(len, DEF_SIZE)) > TWO32
      ensures r == None ==> unchanged(this)
      ensures r.Some? ==>
                && r.value == old(top) && top == old(top) + BlockSize(CapFor(len, DEF_SIZE))
                && r.value !in old(blocks) && IsList(r.value) && |blocks[r.value].items| == len
                && blocks == old(blocks)[r.value := Block(CapFor(len, DEF_SIZE), blocks[r.value].items)]
                && (init.Some? ==> blocks[r.value].items == init.value[..len])
      ensures r.Some? ==> (logCap == old(logCap) <==> old(Stays(BlockSize(CapFor(len, DEF_SIZE)))))
    {
      if len > MAX_CAP {
        return None;
      }
      var first := FirstSizing(len);
      r := Alloc(BlockSize(first));
      if r == None {
        return;
      }
      WriteList(r.value, init, len, first);
    }

    // Metadata, and the initial elements if there are any, at the fresh offset.
    method WriteList(off: int, init: Option<seq<Word>>, len: int, cap: int)
      requires Shaped()
      requires AllHeld(memory, blocks, off) && 0 <= off && off + BlockSize(cap) == top <= |memory|
      requires IsCap(cap) && 0 <= len <= cap <= MAX_CAP && (init.Some? ==> |init.value| >= len)
      modifies this`memory, this`blocks
      ensures Valid() && off !in old(blocks) && IsList(off) && |blocks[off].items| == len
      ensures blocks == old(blocks)[off := Block(cap, blocks[off].items)]
      ensures init.Some? ==> blocks[off].items == init.value[..len]
    {
      ghost var before := memory;
      memory := memory[off := Meta(len, cap)];
      if len > 0 && init.Some? {
        Store(off + 1, init.value[..len]);
      }
      Install(off, Block(cap, memory[off + 1..off + 1 + len]), before);
    }

    method FirstSizing(len: int) returns (c: int)
      requires 0 <= len <= MAX_CAP
      ensures c == CapFor(len, DEF_SIZE) && IsCap(c) && len <= c <= MAX_CAP
    {
      c := DEF_SIZE;
      while c < len
        invariant IsCap(c) && c <= MAX_CAP && CapFor(len, c) == CapFor(len, DEF_SIZE)
        decreases len - c
      {
        NextCap(len, c);
        InUInt32(c * 2);
        c := c * 2 % TWO32;
      }
    }

    // What another variable with the old handle would read: the elements from before the move, and
    // a capacity that is twice that of their block.
    ghost predicate LeftBehind(off: int, b: Block, dest: int)
      requires b.Block?
      reads this
    {
      && 0 <= off && off + 1 + |b.items| <= dest <= |memory| && |b.items| < TWO32 && 0 <= 2 * b.cap < TWO32
      && memory[off..off + 1 + |b.items|] == [Meta(|b.items|, 2 * b.cap)] + b.items
    }

    // The list moves to a new block of twice the capacity; its old block is dead.
    method ListResize(off: int) returns (r: Option<int>)
      requires Valid() && IsList(off) && !Full()
      modifies this
      ensures Valid() && id == old(id)
      ensures var b := old(blocks)[off];
              if old(top) + BlockSize(2 * b.cap) > TWO32 then r == None && unchanged(this)
              else (r == Some(old(top)) && r.value !in old(blocks)
                    && top == old(top) + BlockSize(2 * b.cap)
                    && blocks == (old(blocks) - {off})[r.value := Block(2 * b.cap, b.items)])
      ensures r.Some? ==> (logCap == old(logCap) <==> old(Stays(BlockSize(2 * blocks[off].cap))))
      ensures r.Some? ==> LeftBehind(off, old(blocks)[off], r.value)
    {
      MetaOf(off);
      ghost var b := blocks[off];
      InUInt32(CapOf(memory[off]) * 2);
      var newSize := CapOf(memory[off]) * 2 % TWO32;
      if newSize > MAX_CAP {
        return None;
      }
      r := Alloc(BlockSize(newSize));
      if r == None {
        return;
      }
      MoveBlock(off, r.value);
    }

    // The doubled capacity is stored in the old metadata first, and copied with the elements.
    method MoveBlock(off: int, dest: int)
      requires Shaped()
      requires AllHeld(memory, blocks, dest) && IsList(off) && blocks[off].cap <= 0x1000_0000
      requires 0 <= dest && dest + BlockSize(2 * blocks[off].cap) <= top <= |memory|
      modifies this`memory, this`blocks
      ensures Valid() && dest !in old(blocks)
      ensures blocks == (old(blocks) - {off})[dest := Block(2 * old(blocks)[off].cap, old(blocks)[off].items)]
      ensures LeftBehind(off, old(blocks)[off], dest)
    {
      ghost var b := blocks[off];
      var len := Retire(off, dest);
      ghost var overwritten := memory;
      Store(dest, memory[off..off + 1 + len]);
      HoldsCopy(memory, dest, Block(2 * b.cap, b.items));
      Install(dest, Block(2 * b.cap, b.items), overwritten);
    }

    method Retire(off: int, ghost dest: int) returns (len: int)
      requires AllHeld(memory, blocks, dest) && IsList(off) && blocks[off].cap <= 0x1000_0000
      modifies this`memory, this`blocks
      ensures blocks == old(blocks) - {off} && |memory| == |old(memory)| && AllHeld(memory, blocks, dest)
      ensures var b := old(blocks)[off];
              && len == |b.items| && BlockOk(Block(2 * b.cap, b.items)) && 0 <= off && off + 1 + len <= dest
              && memory[off..off + 1 + len] == [Meta(len, 2 * b.cap)] + b.items
    {
      ghost var before, b := memory, blocks[off];
      assert Holds(memory, off, b);
      CapPositive(b.cap);
      MetaFields(|b.items|, b.cap);
      len := LenOf(memory[off]);
      var cap := CapOf(memory[off]);
      InUInt32(cap * 2);
      memory := memory[off := Meta(len, cap * 2 % TWO32)];
      KeptWithout(before, memory, blocks, dest, off);
      OverwrittenCopy(before, off, b, Meta(len, 2 * cap));
      blocks := blocks - {off};
    }

    // What a list needs before one more element goes in: None is the panic.
    ghost predicate CanGrow(off: int)
      reads this
      requires IsList(off)
    {
      top + BlockSize(2 * blocks[off].cap) <= TWO32
    }

    // A list that has to grow in an arena that is full.
    ghost predicate Stuck(off: int)
      reads this
      requires IsList(off)
    {
      |blocks[off].items| == blocks[off].cap && Full()
    }

    // Makes room for one element; the list may move.
    method MakeSpace(off: int) returns (r: Option<int>)
      requires Valid() && IsList(off) && !Stuck(off)
      modifies this
      ensures Valid() && id == old(id)
      ensures var b := old(blocks)[off];
              if |b.items| < b.cap then r == Some(off) && unchanged(this)
              else if !old(CanGrow(off)) then r == None && unchanged(this)
              else (r == Some(old(top)) && top == old(top) + BlockSize(2 * b.cap) && r.value !in old(blocks)
                    && blocks == (old(blocks) - {off})[r.value := Block(2 * b.cap, b.items)])
      ensures r.Some? && r.value != off ==> LeftBehind(off, old(blocks)[off], r.value)
    {
      MetaOf(off);
      if LenOf(memory[off]) == CapOf(memory[off]) {
        r := ListResize(off);
      } else {
        r := Some(off);
      }
    }

    method ListAppend(off: int, value: Word) returns (r: Option<int>)
      requires Valid() && IsList(off) && !Stuck(off)
      modifies this
      ensures Valid() && id == old(id)
      ensures var b := old(blocks)[off];
              if |b.items| < b.cap then
                r == Some(off) && top == old(top) && blocks == old(blocks)[off := Block(b.cap, b.items + [value])]
              else if !old(CanGrow(off)) then r == None && unchanged(this)
              else (r == Some(old(top)) && top == old(top) + BlockSize(2 * b.cap) && r.value !in old(blocks)
                    && blocks == (old(blocks) - {off})[r.value := Block(2 * b.cap, b.items + [value])])
      ensures r.Some? && r.value != off ==> LeftBehind(off, old(blocks)[off], r.value)
    {
      MetaOf(off);
      r := MakeSpace(off);
      if r.Some? {
        Push(r.value, value);
      }
    }

    // ---- Element access ----

    // Python's index convention: i is legal from -len to len - 1.
    method ListIndex(off: int, i: int) returns (r: Option<Word>)
      requires Valid() && IsList(off)
      ensures var xs := blocks[off].items;
              r == if -|xs| <= i < |xs| then Some(xs[if i < 0 then i + |xs| else i]) else None
    {
      MetaOf(off);
      var len := LenOf(memory[off]);
      if i < -len || i >= len {
        return None;
      }
      var idx := if i < 0 then i + len else i;
      assert memory[off + 1 + idx] == memory[off + 1..off + 1 + len][idx];
      r := Some(memory[off + 1 + idx]);
    }

    method ListSet(off: int, i: int, value: Word) returns (ok: bool)
      requires Valid() && IsList(off)
      modifies this`memory, this`blocks
      ensures Valid()
      ensures var b := old(blocks)[off];
              && (ok <==> -|b.items| <= i < |b.items|)
              && blocks == if ok then old(blocks)[off := Block(b.cap, Replaced(b.items, i, value))]
                           else old(blocks)
    {
      MetaOf(off);
      var len := LenOf(memory[off]);
      if i < -len || i >= len {
        return false;
      }
      ghost var before, b := memory, blocks[off];
      var idx := if i < 0 then i + len else i;
      memory := memory[off + 1 + idx := value];
      Commit(off, Block(b.cap, b.items[idx := value]), before);
      ok := true;
    }

    // The list with value put in front of the element at the normalised index. As in the code,
    // and unlike Python, the index has to be that of an element: an empty list takes none.
    method ListInsert(off: int, i: int, value: Word) returns (r: Option<int>)
      requires Valid() && IsList(off) && !Stuck(off)
      modifies this
      ensures Valid() && id == old(id)
      ensures var b := old(blocks)[off];
              if !(-|b.items| <= i < |b.items|) then r == None && unchanged(this)
              else (var ys := Inserted(b.items, i, value);
                    if |b.items| < b.cap then
                      r == Some(off) && top == old(top) && blocks == old(blocks)[off := Block(b.cap, ys)]
                    else if !old(CanGrow(off)) then r == None && unchanged(this)
                    else (r == Some(old(top)) && top == old(top) + BlockSize(2 * b.cap) && r.value !in old(blocks)
                          && blocks == (old(blocks) - {off})[r.value := Block(2 * b.cap, ys)]))
    {
      MetaOf(off);
      var len := LenOf(memory[off]);
      if i < -len || i >= len {
        return None;
      }
      var idx := if i < 0 then i + len else i;
      r := MakeSpace(off);
      if r.Some? {
        OpenGap(r.value, idx, value);
      }
    }

    // memmove one place up from idx on, then the value at idx.
    method OpenGap(off: int, idx: int, value: Word)
      requires Valid() && IsList(off) && 0 <= idx < |blocks[off].items| < blocks[off].cap
      modifies this`memory, this`blocks
      ensures Valid()
      ensures var b := old(blocks)[off];
              blocks == old(blocks)[off := Block(b.cap, b.items[..idx] + [value] + b.items[idx..])]
    {
      MetaOf(off);
      ghost var before, b := memory, blocks[off];
      var len, cap := LenOf(memory[off]), CapOf(memory[off]);
      var moved := memory[off + 1 + idx..off + 1 + len];
      memory := memory[off := Meta(len + 1, cap)];
      var at := off + 1 + idx + 1;
      Store(at, moved);
      forall k | at <= k < at + |moved|
        ensures memory[k] == before[k - 1]
      {
        assert memory[k] == memory[at..at + |moved|][k - at] == moved[k - at];
      }
      memory := memory[off + 1 + idx := value];
      GapItems(before, memory, off, b, idx, value);
      Commit(off, Block(b.cap, b.items[..idx] + [value] + b.items[idx..]), before);
    }

    lemma GapItems(mem: seq<Word>, mem': seq<Word>, off: int, b: Block, idx: int, value: Word)
      requires b.Block? && Holds(mem, off, b) && |mem'| == |mem| && 0 <= idx < |b.items| < b.cap
      requires forall k :: off < k < off + 1 + idx ==> mem'[k] == mem[k]
      requires mem'[off + 1 + idx] == value
      requires forall k :: off + 1 + idx < k <= off + 1 + |b.items| ==> mem'[k] == mem[k - 1]
      ensures mem'[off + 1..off + 2 + |b.items|] == b.items[..idx] + [value] + b.items[idx..]
    {
      assert forall k :: 0 <= k < |b.items| ==> b.items[k] == mem[off + 1..off + 1 + |b.items|][k] == mem[off + 1 + k];
    }

    // ---- Search, removal, reversal ----

    // Words are compared bit for bit; only the first match goes.
    method ListRemove(off: int, value: Word) returns (ok: bool)
      requires Valid() && IsList(off)
      modifies this`memory, this`blocks
      ensures Valid()
      ensures var b := old(blocks)[off];
              && (ok <==> value in b.items)
              && blocks == if value in b.items then old(blocks)[off := Block(b.cap, Removed(b.items, value))]
                   else old(blocks)
    {
      MetaOf(off);
      ghost var xs := blocks[off].items;
      var len := LenOf(memory[off]);
      var i := 0;
      while i < len
        invariant 0 <= i <= len && IndexOf(xs, value, i) == IndexOf(xs, value, 0)
        invariant unchanged(this)
      {
        assert memory[off + 1 + i] == xs[i] by {
          assert memory[off + 1 + i] == memory[off + 1..off + 1 + len][i];
        }
        if memory[off + 1 + i] == value {
          CloseGap(off, i);
          return true;
        }
        i := i + 1;
      }
      ok := false;
    }

    // memmove one place down from idx + 1 on.
    method CloseGap(off: int, idx: int)
      requires Valid() && IsList(off) && 0 <= idx < |blocks[off].items|
      modifies this`memory, this`blocks
      ensures Valid()
      ensures var b := old(blocks)[off];
              blocks == old(blocks)[off := Block(b.cap, b.items[..idx] + b.items[idx + 1..])]
    {
      MetaOf(off);
      ghost var before, b := memory, blocks[off];
      var len, cap := LenOf(memory[off]), CapOf(memory[off]);
      var moved := memory[off + 1 + idx + 1..off + 1 + len];
      memory := memory[off := Meta(len - 1, cap)];
      Store(off + 1 + idx, moved);
      ClosedItems(before, memory, off, b, idx);
      Commit(off, Block(b.cap, b.items[..idx] + b.items[idx + 1..]), before);
    }

    lemma ClosedItems(mem: seq<Word>, mem': seq<Word>, off: int, b: Block, idx: int)
      requires b.Block? && Holds(mem, off, b) && |mem'| == |mem| && 0 <= idx < |b.items|
      requires forall k :: off < k < off + 1 + idx ==> mem'[k] == mem[k]
      requires forall k :: off + 1 + idx <= k < off + |b.items| ==> mem'[k] == mem[k + 1]
      ensures mem'[off + 1..off + |b.items|] == b.items[..idx] + b.items[idx + 1..]
    {
      assert forall k :: 0 <= k < |b.items| ==> b.items[k] == mem[off + 1..off + 1 + |b.items|][k] == mem[off + 1 + k];
    }

    // The position of the first match in [start, end), or -1; None is the panic.
    method ListFind(off: int, value: Word, start: int, end: int) returns (r: Option<int>)
      requires Valid() && IsList(off)
      ensures r == Located(blocks[off].items, value, start, end)
    {
      MetaOf(off);
      var len := LenOf(memory[off]);
      if start < -len || start > len || end < -len || end > len {
        return None;
      }
      var s := if start < 0 then start + len else start;
      var e := if end < 0 then end + len else end;
      if s > e {
        return None;
      }
      ghost var xs := blocks[off].items;
      var i := s;
      while i < e
        invariant s <= i <= e && IndexOf(xs, value, i) == IndexOf(xs, value, s)
      {
        assert memory[off + 1 + i] == xs[i] by {
          assert memory[off + 1 + i] == memory[off + 1..off + 1 + len][i];
        }
        if memory[off + 1 + i] == value {
          return Some(i);
        }
        i := i + 1;
      }
      r := Some(-1);
    }

    method ListReverse(off: int)
      requires Valid() && IsList(off)
      modifies this`memory, this`blocks
      ensures Valid() && blocks == old(blocks)[off := Block(old(blocks)[off].cap, Reversed(old(blocks)[off].items))]
    {
      MetaOf(off);
      ghost var before, b := memory, blocks[off];
      var len := LenOf(memory[off]);
      SwapEnds(off + 1, off + len);
      ReversedItems(before, memory, off, b);
      Commit(off, Block(b.cap, Reversed(b.items)), before);
    }

    // Two pointers that meet in the middle.
    method SwapEnds(first: int, last: int)
      requires 0 <= first <= last + 1 && last < |memory|
      modifies this`memory
      ensures |memory| == |old(memory)|
      ensures forall p :: 0 <= p < |memory| && !(first <= p <= last) ==> memory[p] == old(memory)[p]
      ensures forall p :: first <= p <= last ==> memory[p] == old(memory)[first + last - p]
    {
      var lo, hi := first, last;
      while lo < hi
        invariant first <= lo <= hi + 1 && lo + hi == first + last && |memory| == |old(memory)|
        invariant forall p :: 0 <= p < |memory| && !(first <= p < lo || hi < p <= last) ==> memory[p] == old(memory)[p]
        invariant forall p :: first <= p < lo || hi < p <= last ==> memory[p] == old(memory)[first + last - p]
        decreases hi - lo
      {
        var tmp := memory[lo];
        memory := memory[lo := memory[hi]];
        memory := memory[hi := tmp];
        lo, hi := lo + 1, hi - 1;
      }
    }

    lemma ReversedItems(mem: seq<Word>, mem': seq<Word>, off: int, b: Block)
      requires b.Block? && Holds(mem, off, b) && |mem'| == |mem|
      requires forall p :: off < p <= off + |b.items| ==> mem'[p] == mem[2 * off + 1 + |b.items| - p]
      ensures mem'[off + 1..off + 1 + |b.items|] == Reversed(b.items)
    {
      forall k | 0 <= k < |b.items|
        ensures mem'[off + 1 + k] == Reversed(b.items)[k]
      {
        assert b.items[|b.items| - 1 - k] == mem[off + 1..off + 1 + |b.items|][|b.items| - 1 - k];
      }
    }

    // ---- Copying between lists ----

    method ReadItems(off: int) returns (xs: seq<Word>)
      requires Valid() && IsList(off)
      ensures xs == blocks[off].items
    {
      MetaOf(off);
      xs := memory[off + 1..off + 1 + LenOf(memory[off])];
    }

    // memcpy of words over the elements from position `at` on.
    method CopyInto(off: int, at: int, words: seq<Word>)
      requires Valid() && IsList(off) && 0 <= at && at + |words| <= |blocks[off].items|
      modifies this`memory, this`blocks
      ensures Valid()
      ensures var b := old(blocks)[off];
              blocks == old(blocks)[off := Block(b.cap, b.items[..at] + words + b.items[at + |words|..])]
    {
      MetaOf(off);
      ghost var before, b := memory, blocks[off];
      Store(off + 1 + at, words);
      CopiedItems(before, memory, off, b, at, words);
      Commit(off, Block(b.cap, b.items[..at] + words + b.items[at + |words|..]), before);
    }

    // Two copies, the second behind the first.
    method CopyBoth(off: int, xs: seq<Word>, ys: seq<Word>)
      requires Valid() && IsList(off) && |blocks[off].items| == |xs| + |ys|
      modifies this`memory, this`blocks
      ensures Valid() && blocks == old(blocks)[off := Block(old(blocks)[off].cap, xs + ys)]
    {
      CopyInto(off, 0, xs);
      CopyInto(off, |xs|, ys);
      assert blocks[off].items == xs + ys;
    }

    // n copies, one behind the other.
    method CopyTimes(off: int, xs: seq<Word>, n: nat)
      requires Valid() && IsList(off) && |blocks[off].items| == |Repeat(xs, n)|
      modifies this`memory, this`blocks
      ensures Valid() && blocks == old(blocks)[off := Block(old(blocks)[off].cap, Repeat(xs, n))]
    {
      ghost var zs := blocks[off].items;
      RepeatEnds(xs, zs, n);
      for i := 0 to n
        invariant Valid() && IsList(off)
        invariant blocks == old(blocks)[off := Block(old(blocks)[off].cap, Repeated(xs, i, zs))]
      {
        RepeatFits(xs, i, n);
        RepeatSpliced(xs, blocks[off].items, zs, i);
        CopyInto(off, i * |xs|, xs);
      }
    }

    lemma CopiedItems(mem: seq<Word>, mem': seq<Word>, off: int, b: Block, at: int, words: seq<Word>)
      requires b.Block? && Holds(mem, off, b) && |mem'| == |mem| && 0 <= at && at + |words| <= |b.items|
      requires mem'[off + 1 + at..off + 1 + at + |words|] == words
      requires forall k :: 0 <= k < |mem| && !(off + 1 + at <= k < off + 1 + at + |words|) ==> mem'[k] == mem[k]
      ensures mem'[off + 1..off + 1 + |b.items|] == b.items[..at] + words + b.items[at + |words|..]
    {
      assert forall k :: 0 <= k < |b.items| ==> b.items[k] == mem[off + 1..off + 1 + |b.items|][k] == mem[off + 1 + k];
      assert forall k :: 0 <= k < |words| ==> words[k] == mem'[off + 1 + at + k];
    }

    // ---- The whole arena ----

    // A new arena struct in this slot: 2^10 words of anything.
    method Init(newId: int)
      modifies this
      ensures Valid() && id == newId && bumper == 0 && top == 0 && logCap == ARENA_DEF_SIZE && blocks == map[]
      ensures |memory| == 1024
    {
      assert Pow2(ARENA_DEF_SIZE) == 1024;
      assert |seq(1024, _ => 0 as Word)| == 1024;
      var garbage: seq<Word> :| |garbage| == 1024;
      memory := garbage;
      bumper, top, logCap, id, blocks := 0, 0, ARENA_DEF_SIZE, newId, map[];
    }

    // The memory is given back and the struct is zeroed.
    method Free()
      modifies this
      ensures memory == [] && bumper == 0 && id == 0 && logCap == 0 && blocks == map[]
    {
      memory, bumper, id, logCap, blocks, top := [], 0, 0, 0, map[], 0;
    }

    // The bumper goes back to the start; every list in it is dead.
    method Clear()
      requires Valid()
      modifies this`bumper, this`blocks, this`top
      ensures Valid() && bumper == 0 && top == 0 && blocks == map[]
    {
      bumper := 0;
      blocks, top := map[], 0;
    }
  }
}

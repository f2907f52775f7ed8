/**
 String objects in an arena: creation, and reading and writing their bytes. A string is a
 sequence of bytes here, written as characters below 256.
 */
module Strings {
  import opened Arenas
  import opened Bits
  import opened Bytes
  import opened Memory
  import opened Wrappers

  // The words a string of this length takes.
  function Room(len: nat): int {
    TextSize(CapFor(len, DEF_SIZE))
  }

  lemma RoomCovers(len: nat)
    ensures Room(len) >= len + 9
  {
    assert IsCap(DEF_SIZE);
    CapForIsLeast(len, DEF_SIZE);
  }

  // The exact size: as many words as the string gets bytes, which are 32 * 2^k, and nine more.
  lemma SizeOfString(len: nat, k: nat)
    requires len <= 32 * Pow2(k) && (k > 0 ==> 32 * Pow2(k - 1) < len)
    ensures Room(len) == 32 * Pow2(k) + 9
  {
    SizeOfList(len, k);
  }

  ghost predicate IsText(a: Arena, off: int)
    reads a
  {
    off in a.blocks && a.blocks[off].TextBlock?
  }

  // There is a NUL behind the text.
  ghost predicate IsTerminated(a: Arena, off: int)
    reads a
  {
    && IsText(a, off) && 0 <= off && off + 1 + |a.blocks[off].chars| / 8 < |a.memory|
    && CharAt(a.memory, off + 1, |a.blocks[off].chars|) == '\0'
  }

  // ---- Bytes ----

  // memcpy of s to byte `at` of the words from base on.
  method StoreChars(a: Arena, base: int, at: nat, s: string)
    requires 0 <= base && base + at + |s| <= |a.memory| && AreBytes(s)
    modifies a`memory
    ensures |a.memory| == |old(a.memory)|
    ensures forall k :: 0 <= k < |a.memory| && !(base <= k < base + at + |s|) ==> a.memory[k] == old(a.memory)[k]
    ensures forall i :: 0 <= i && base + i / 8 < |a.memory| ==>
              CharAt(a.memory, base, i) == if at <= i < at + |s| then s[i - at] else CharAt(old(a.memory), base, i)
  {
    for j := 0 to |s|
      invariant |a.memory| == |old(a.memory)|
      invariant forall k :: 0 <= k < |a.memory| && !(base <= k < base + at + |s|) ==> a.memory[k] == old(a.memory)[k]
      invariant forall i :: 0 <= i && base + i / 8 < |a.memory| ==>
                  CharAt(a.memory, base, i) == if at <= i < at + j then s[i - at] else CharAt(old(a.memory), base, i)
    {
      ghost var before := a.memory;
      a.memory := WithChar(a.memory, base, at + j, s[j]);
      forall i | 0 <= i && base + i / 8 < |before|
        ensures CharAt(a.memory, base, i) == if i == at + j then s[j] else CharAt(before, base, i)
      {
        WithCharChars(before, base, at + j, s[j], i);
      }
    }
  }

  // The bytes there.
  function Spelled(mem: seq<Word>, base: int, n: nat): (s: string)
    requires 0 <= base && base + n <= |mem|
    ensures |s| == n && AreBytes(s) && forall i :: 0 <= i < n ==> s[i] == CharAt(mem, base, i)
  {
    seq(n, i requires 0 <= i < n => CharAt(mem, base, i))
  }

  lemma TextOf(a: Arena, off: int)
    requires a.Valid() && IsText(a, off)
    ensures var t := a.blocks[off];
            && 0 <= off && off + TextSize(t.cap) <= |a.memory| && |t.chars| <= t.cap
            && a.memory[off] == |t.chars| && Spelled(a.memory, off + 1, |t.chars|) == t.chars
  {
    assert Holds(a.memory, off, a.blocks[off]);
  }

  method ReadText(a: Arena, off: int) returns (s: string)
    requires a.Valid() && IsText(a, off)
    ensures s == a.blocks[off].chars && AreBytes(s)
  {
    TextOf(a, off);
    s := Spelled(a.memory, off + 1, a.memory[off]);
  }

  // Overwrites the bytes from `at` on.
  method PutText(a: Arena, off: int, at: nat, s: string)
    requires a.Valid() && IsText(a, off) && at + |s| <= |a.blocks[off].chars| && AreBytes(s)
    modifies a`memory, a`blocks
    ensures a.Valid()
    ensures var t := old(a.blocks)[off];
            a.blocks == old(a.blocks)[off := TextBlock(t.cap, t.chars[..at] + s + t.chars[at + |s|..])]
  {
    TextOf(a, off);
    ghost var before, t := a.memory, a.blocks[off];
    StoreChars(a, off + 1, at, s);
    a.Commit(off, TextBlock(t.cap, t.chars[..at] + s + t.chars[at + |s|..]), before);
  }

  // The terminator goes behind the text, and within the block.
  method Terminate(a: Arena, off: int)
    requires a.Valid() && IsText(a, off)
    modifies a`memory, a`blocks
    ensures a.Valid() && a.blocks == old(a.blocks) && IsTerminated(a, off)
  {
    TextOf(a, off);
    ghost var before, t := a.memory, a.blocks[off];
    StoreChars(a, off + 1, a.memory[off], ['\0']);
    a.Commit(off, t, before);
  }

  // ---- Creation ----

  // A string object of length len: `init`, which is copied with its terminator, or anything.
  method StrNew(a: Arena, init: Option<string>, len: nat) returns (r: Option<int>)
    requires a.Valid() && !a.Full() && (init.Some? ==> |init.value| == len && AreBytes(init.value))
    modifies a
    ensures a.Valid() && a.id == old(a.id)
    ensures r.Some? <==> old(a.top) + Room(len) <= TWO32
    ensures r == None ==> unchanged(a)
    ensures r.Some? ==>
              && r.value == old(a.top) && a.top == old(a.top) + Room(len)
              && r.value !in old(a.blocks) && IsText(a, r.value) && |a.blocks[r.value].chars| == len
              && a.blocks == old(a.blocks)[r.value := TextBlock(CapFor(len, DEF_SIZE), a.blocks[r.value].chars)]
              && (init.Some? ==> a.blocks[r.value].chars == init.value)
              && (a.logCap == old(a.logCap) <==> old(a.Stays(Room(len))))
    ensures r.Some? && init.Some? && len > 0 ==> IsTerminated(a, r.value)
  {
    RoomCovers(len);
    if len > MAX_CAP * 8 {
      return None;
    }
    var first := FirstSizing(len);
    r := a.Alloc(8 + first + 1);
    if r.Some? {
      WriteText(a, r.value, init, len, first);
    }
  }

  method FirstSizing(len: nat) returns (c: int)
    ensures c == CapFor(len, DEF_SIZE)
  {
    c := DEF_SIZE;
    while c < len
      invariant c > 0 && CapFor(len, c) == CapFor(len, DEF_SIZE)
      decreases len - c
    {
      c := c * 2;
    }
  }

  // Metadata, and the bytes if there are any, at the fresh offset.
  method WriteText(a: Arena, off: int, init: Option<string>, len: nat, cap: int)
    requires a.Shaped() && AllHeld(a.memory, a.blocks, off) && 0 <= off && off + TextSize(cap) == a.top <= |a.memory|
    requires len <= cap && len < TWO64 && (init.Some? ==> |init.value| == len && AreBytes(init.value))
    modifies a`memory, a`blocks
    ensures a.Valid() && off !in old(a.blocks) && IsText(a, off) && |a.blocks[off].chars| == len
    ensures a.blocks == old(a.blocks)[off := TextBlock(cap, a.blocks[off].chars)]
    ensures init.Some? ==> a.blocks[off].chars == init.value
    ensures init.Some? && len > 0 ==> IsTerminated(a, off)
  {
    ghost var before := a.memory;
    a.memory := a.memory[off := len];
    if len > 0 && init.Some? {
      StoreChars(a, off + 1, 0, init.value + ['\0']);
    }
    a.Install(off, TextBlock(cap, Spelled(a.memory, off + 1, len)), before);
  }
}

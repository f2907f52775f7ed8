/**
 The registry of arenas: a bitmap of used slots, scanned a 64-bit word at a time from a cursor,
 and the lists of all live arenas, named by (arena id, offset). A bitmap word is the sequence
 of its 64 bits, lowest first.
 */
module Registries {
  import opened Bits
  import opened Wrappers
  import opened Arenas
  import opened Memory
  import opened Sequences
  import Duckbox

  type Bitmap = s: seq<bool> | |s| == 64 witness seq(64, _ => false)

  type ListBlock = b: Block | b.Block? witness Block(DEF_SIZE, [])

  // The block that takes one more element; it moves, to twice the capacity, when it was full.
  function Widened(b: ListBlock, items: seq<Word>): ListBlock {
    Block(if |b.items| == b.cap then 2 * b.cap else b.cap, items)
  }

  // The block of a new list.
  function Sized(items: seq<Word>): ListBlock {
    Block(CapFor(|items|, DEF_SIZE), items)
  }

  // The block with other elements.
  function With(b: ListBlock, items: seq<Word>): ListBlock {
    Block(b.cap, items)
  }

  datatype Repetition = Panic | Escape | Made(list: Ref)

  // __builtin_ffsll(~word) - 1, for a word that is not all ones.
  function FirstClear(w: seq<bool>, from: int): (b: int)
    requires 0 <= from <= |w|
    ensures from <= b <= |w|
    ensures b < |w| ==> !w[b]
    ensures forall j :: from <= j < b ==> w[j]
    decreases |w| - from
  {
    if from == |w| || !w[from] then from else FirstClear(w, from + 1)
  }

  class Registry {
    const cap: int
    const arenas: seq<Arena>
    var available: seq<Bitmap>
    var idx: int
    ghost var live: set<int>
    ghost var lists: map<Ref, ListBlock>

    // Zeroed arena structs and a zeroed bitmap of this many words.
    constructor (words: nat)
      requires 0 < words && 64 * words < 0x1_0000
      ensures Valid() && cap == 64 * words && live == {} && lists == map[]
      ensures fresh(arenas)
    {
      var structs: seq<Arena> := [];
      for i := 0 to 64 * words
        invariant |structs| == i && fresh(structs)
        invariant forall j, k :: 0 <= j < k < i ==> structs[j] != structs[k]
      {
        var a := new Arena();
        structs := structs + [a];
      }
      cap, arenas, idx := 64 * words, structs, 0;
      var zero: Bitmap := seq(64, _ => false);
      available := seq(words, _ => zero);
      live, lists := {}, map[];
    }

    // Slot k of the bitmap.
    ghost predicate Bit(k: int)
      requires 0 <= k < 64 * |available|
      reads this`available
    {
      available[k / 64][k % 64]
    }

    ghost predicate AllTaken()
      reads this
    {
      forall k :: 0 <= k < cap ==> k in live
    }

    ghost predicate Slots()
      reads this
    {
      && 64 <= cap < 0x1_0000 && cap % 64 == 0 && |arenas| == cap == 64 * |available| && 0 <= idx < |available|
      && (forall i, j :: 0 <= i < j < cap ==> arenas[i] != arenas[j])
      && (forall k :: k in live ==> 0 <= k < cap)
      && (forall k :: 0 <= k < cap ==> (Bit(k) <==> k in live))
    }

    // Arena k is sound and `ls` names exactly its lists.
    ghost predicate Names(ls: map<Ref, ListBlock>, k: int)
      requires 0 <= k < |arenas|
      reads arenas[k]
    {
      arenas[k].Valid() && arenas[k].id == k && NamesBlocks(ls, k, arenas[k].blocks)
    }

    ghost predicate Valid()
      reads this, arenas
    {
      && Slots()
      && (forall r {:trigger r in lists} :: r in lists ==> r.id in live && arenas[r.id].IsList(r.off))
      && (forall k :: k in live ==> Names(lists, k))
    }

    // After a change to arena id alone, its lists get their new names.
    method Rename(id: int, ghost ls: map<Ref, ListBlock>)
      requires Slots() && id in live && Names(ls, id) && SameElsewhere(lists, ls, id)
      requires forall r :: r in lists && r.id != id ==> r.id in live && arenas[r.id].IsList(r.off)
      requires forall k :: k in live && k != id ==> Names(lists, k)
      modifies this`lists
      ensures Valid() && lists == ls
    {
      forall k | k in live && k != id
        ensures Names(ls, k)
      {
        assert Names(lists, k);
        assert forall o :: Ref(k, o).id != id;
      }
      forall r: Ref | r in ls && r.id == id
        ensures arenas[id].IsList(r.off)
      {
        assert Ref(id, r.off) in ls;
      }
      lists := ls;
    }

    // List h of arena h.id, whose blocks were `before`, is now the block nb at offset off.
    method Relocate(h: Ref, off: int, ghost nb: Block, ghost before: map<int, Block>)
      requires Slots() && h.id in live && NamesBlocks(lists, h.id, before) && nb.Block?
      requires arenas[h.id].Valid() && arenas[h.id].id == h.id && arenas[h.id].blocks == (before - {h.off})[off := nb]
      requires forall r :: r in lists && r.id != h.id ==> r.id in live && arenas[r.id].IsList(r.off)
      requires forall k :: k in live && k != h.id ==> Names(lists, k)
      modifies this`lists
      ensures Valid() && lists == (old(lists) - {h})[Ref(h.id, off) := nb]
    {
      MoveNames(lists, h, before, off, nb);
      Rename(h.id, (lists - {h})[Ref(h.id, off) := nb]);
    }

    // The duck a list is named by in the runtime.
    ghost function Handle(h: Ref): Word
      requires Valid() && h in lists
      reads this, arenas
    {
      HandleFits(h);
      Duckbox.PackRef(Duckbox.LIST, h.id, h.off)
    }

    lemma HandleFits(h: Ref)
      requires Valid() && h in lists
      ensures 0 <= h.id < 0x1_0000 && 0 <= h.off < arenas[h.id].top <= TWO32 && h.off < TWO32
    {
      assert Ref(h.id, h.off) == h;
      arenas[h.id].MetaOf(h.off);
    }

    // Arena and offset are read back from the handle, so no two live lists share one.
    lemma HandlesNameLists(h1: Ref, h2: Ref)
      requires Valid() && h1 in lists && h2 in lists
      ensures Duckbox.TypeOf(Handle(h1)) == Duckbox.LIST
      ensures Duckbox.ArenaIdOf(Handle(h1)) == h1.id && Duckbox.OffsetOf(Handle(h1)) == h1.off
      ensures Handle(h1) == Handle(h2) <==> h1 == h2
    {
      HandleFits(h1);
      HandleFits(h2);
      Duckbox.RefRoundTrip(Duckbox.LIST, h1.id, h1.off);
      Duckbox.RefRoundTrip(Duckbox.LIST, h2.id, h2.off);
    }

    // Two live lists in one arena have no word in common.
    lemma ListsAreApart(h1: Ref, h2: Ref)
      requires Valid() && h1 in lists && h2 in lists && h1 != h2 && h1.id == h2.id
      ensures |arenas[h1.id].memory| >= h1.off + 1 + |lists[h1].items|
      ensures h1.off + 1 + |lists[h1].items| <= h2.off || h2.off + 1 + |lists[h2].items| <= h1.off
    {
      assert Ref(h1.id, h1.off) == h1 && Ref(h2.id, h2.off) == h2;
      var a := arenas[h1.id];
      a.MetaOf(h1.off);
      a.MetaOf(h2.off);
      assert Apart(h1.off, Size(a.blocks[h1.off]), h2.off, Size(a.blocks[h2.off]));
    }

    // ---- Slots ----

    // The first word from the cursor on, cyclically, that has a clear bit, and that bit.
    method GetFreeIndex() returns (r: Option<int>)
      requires Slots()
      modifies this`idx
      ensures Slots()
      ensures r == None <==> old(AllTaken())
      ensures r.Some? ==> 0 <= r.value < 64 && idx * 64 + r.value !in live
      ensures r.Some? ==>
                forall v :: 0 <= v < |available| && Steps(old(idx), v, |available|) < Steps(old(idx), idx, |available|)
                  ==> Full(available[v])
      ensures r.Some? ==> forall b :: 0 <= b < r.value ==> available[idx][b]
    {
      var w, bit := ScanWords();
      if bit == 64 {
        forall k | 0 <= k < cap
          ensures k in live
        {
          assert Full(available[k / 64]);
          assert Bit(k);
        }
        return None;
      }
      idx := w;
      assert (w * 64 + bit) / 64 == w && (w * 64 + bit) % 64 == bit;
      assert !Bit(w * 64 + bit);
      r := Some(bit);
    }

    // The word and its lowest clear bit; bit 64 when all words are full.
    method ScanWords() returns (w: int, bit: int)
      requires Slots()
      ensures 0 <= bit <= 64
      ensures bit == 64 ==> forall v :: 0 <= v < |available| ==> Full(available[v])
      ensures bit < 64 ==> 0 <= w < |available| && !available[w][bit] && forall b :: 0 <= b < bit ==> available[w][b]
      ensures bit < 64 ==> forall v :: 0 <= v < |available| && Steps(idx, v, |available|) < Steps(idx, w, |available|)
                             ==> Full(available[v])
    {
      var n := cap / 64;
      var i := 0;
      while i < n
        invariant 0 <= i <= n
        invariant forall v :: 0 <= v < n && Steps(idx, v, n) < i ==> Full(available[v])
      {
        w := (idx + i) % n;
        StepsReach(idx, i, n);
        bit := FirstClear(available[w], 0);
        if bit < 64 {
          return;
        }
        i := i + 1;
      }
      w, bit := 0, 64;
    }

    // All slots are live exactly when as many are.
    lemma LiveCount()
      requires Slots()
      ensures |live| <= cap && (AllTaken() <==> |live| == cap)
    {
      var all := Below(cap);
      assert live <= all && live + (all - live) == all;
      if |live| == cap {
        assert all - live == {};
      }
      if AllTaken() {
        assert live == all;
      }
    }

    // Slot r comes up before slot k in the scan, which begins at the cursor word and goes up, and takes the
    // lowest slot of a word.
    twostate predicate ComesBefore(r: int, k: int) {
      var n := cap / 64;
      Steps(old(idx), r / 64, n) < Steps(old(idx), k / 64, n) || (r / 64 == k / 64 && r <= k)
    }

    // A slot that was not live becomes a fresh arena; None, the panic, when every slot is live.
    method ArenaCreate() returns (r: Option<int>)
      requires Valid()
      modifies this, arenas
      ensures Valid()
      ensures r == None <==> old(AllTaken())
      ensures r == None ==> live == old(live) && lists == old(lists)
      ensures r.Some? ==> r.value !in old(live) && live == old(live) + {r.value} && lists == old(lists)
      ensures r.Some? ==> arenas[r.value].blocks == map[] && arenas[r.value].top == 0
      ensures r.Some? ==> idx == r.value / 64 && forall k :: 0 <= k < cap && k !in old(live) ==> ComesBefore(r.value, k)
      ensures forall k :: 0 <= k < cap && Some(k) != r ==> unchanged(arenas[k])
    {
      var bit := GetFreeIndex();
      if bit == None {
        return None;
      }
      var id := idx * 64 + bit.value;
      arenas[id].Init(id);
      TakeSlot(id);
      EmptyNames(id);
      r := Some(id);
    }

    // A fresh arena has no lists, and none are named.
    lemma EmptyNames(id: int)
      requires 0 <= id < |arenas| && arenas[id].Valid() && arenas[id].id == id && arenas[id].blocks == map[]
      requires forall r :: r in lists ==> r.id != id
      ensures Names(lists, id)
    {
      assert forall o :: Ref(id, o).id == id;
    }

    method SetBit(id: int, used: bool)
      requires 0 <= id < 64 * |available|
      modifies this`available
      ensures |available| == |old(available)|
      ensures forall k :: 0 <= k < 64 * |available| ==> Bit(k) == if k == id then used else old(Bit(k))
    {
      available := available[id / 64 := available[id / 64][id % 64 := used]];
    }

    method TakeSlot(id: int)
      requires Slots() && 0 <= id < cap
      modifies this`available, this`live
      ensures Slots() && live == old(live) + {id}
    {
      SetBit(id, true);
      live := live + {id};
      assert forall k :: 0 <= k < cap ==> (Bit(k) <==> k in live);
    }

    method ReleaseSlot(id: int)
      requires Slots() && 0 <= id < cap
      modifies this`available, this`live
      ensures Slots() && live == old(live) - {id}
    {
      SetBit(id, false);
      live := live - {id};
      assert forall k :: 0 <= k < cap ==> (Bit(k) <==> k in live);
    }

    method ArenaFree(id: int)
      requires Valid() && 0 <= id < cap
      modifies this, arenas[id]
      ensures Valid() && live == old(live) - {id} && lists == Without(old(lists), id)
    {
      arenas[id].Free();
      ReleaseSlot(id);
      assert forall k :: k in live ==> Names(lists, k);
      Forget(id);
    }

    // The lists of a dead arena are named no more; that does not concern the others.
    method Forget(id: int)
      requires Slots() && id !in live && forall k :: k in live ==> Names(lists, k)
      requires forall r :: r in lists && r.id != id ==> r.id in live && arenas[r.id].IsList(r.off)
      modifies this`lists
      ensures Valid() && lists == Without(old(lists), id)
    {
      forall k | k in live
        ensures Names(Without(lists, id), k)
      {
        assert Names(lists, k);
        assert forall o :: Ref(k, o).id != id;
      }
      lists := Without(lists, id);
    }

    // ---- Lists ----

    // No list of len elements can be made in arena id.
    ghost predicate Overfull(id: int, len: int)
      requires 0 <= id < |arenas|
      reads arenas[id]
    {
      len > MAX_CAP || arenas[id].top + BlockSize(CapFor(len, DEF_SIZE)) > TWO32
    }

    // No list in an arena can have more than 2^28 elements.
    lemma ShortLists(h: Ref)
      requires Valid() && h in lists
      ensures |lists[h].items| <= 0x1000_0000
    {
      assert Ref(h.id, h.off) == h;
      arenas[h.id].MetaOf(h.off);
    }

    twostate predicate SameTop(id: int)
      requires 0 <= id < |arenas|
      reads arenas[id]
    {
      arenas[id].top == old(arenas[id].top) && arenas[id].logCap == old(arenas[id].logCap)
    }

    // Arena id has handed out a block for a list of this length. Raw pointers into the arena that
    // were taken before, such as those to the operands of a concatenation, are good afterwards
    // exactly when the arena had the room already.
    twostate predicate TookBlock(id: int, len: int)
      requires 0 <= id < |arenas|
      reads arenas[id]
    {
      var size := BlockSize(CapFor(len, DEF_SIZE));
      && arenas[id].top == old(arenas[id].top) + size
      && (arenas[id].logCap == old(arenas[id].logCap) <==> old(arenas[id].Stays(size)))
    }

    // A list of len elements in arena id: the first ones of `init`, or anything.
    method ListCreate(id: int, init: Option<seq<Word>>, len: int) returns (r: Option<Ref>)
      requires Valid() && id in live && 0 <= len < TWO32 && (init.Some? ==> |init.value| >= len)
      requires !arenas[id].Full()
      modifies this, arenas[id]
      ensures Valid() && live == old(live)
      ensures r == None <==> old(Overfull(id, len))
      ensures r == None ==> lists == old(lists) && unchanged(arenas[id])
      ensures r.Some? ==> r.value.id == id && r.value !in old(lists) && r.value in lists
      ensures r.Some? ==>
                && lists == old(lists)[r.value := lists[r.value]]
                && lists[r.value].cap == CapFor(len, DEF_SIZE) && |lists[r.value].items| == len
                && (init.Some? ==> lists[r.value].items == init.value[..len])
      ensures r.Some? ==> TookBlock(id, len)
    {
      ghost var before := arenas[id].blocks;
      var off := arenas[id].ListCreate(init, len);
      if off == None {
        return None;
      }
      r := Some(Ref(id, off.value));
      assert before - {off.value} == before && lists - {r.value} == lists;
      Relocate(r.value, off.value, arenas[id].blocks[off.value], before);
    }

    // A full list that cannot get twice its capacity.
    ghost predicate NoRoom(h: Ref)
      requires h in lists && 0 <= h.id < |arenas|
      reads this`lists, arenas[h.id]
    {
      IsFull(h) && arenas[h.id].top + BlockSize(2 * lists[h].cap) > TWO32
    }

    ghost predicate IsFull(h: Ref)
      requires h in lists
      reads this`lists
    {
      |lists[h].items| == lists[h].cap
    }

    // A full list in an arena that has no words left.
    ghost predicate Stuck(h: Ref)
      requires h in lists && 0 <= h.id < |arenas|
      reads this`lists, arenas[h.id]
    {
      IsFull(h) && arenas[h.id].Full()
    }

    // The handle the caller keeps is the returned one: the list moves when it was full.
    method ListAppend(h: Ref, value: Word) returns (r: Option<Ref>)
      requires Valid() && h in lists && !Stuck(h)
      modifies this, arenas[h.id]
      ensures Valid() && live == old(live)
      ensures r == None <==> old(NoRoom(h))
      ensures r == None ==> lists == old(lists) && unchanged(arenas[h.id])
      ensures r.Some? ==> r.value.id == h.id && if old(IsFull(h)) then r.value !in old(lists) else r.value == h
      ensures r.Some? ==>
                arenas[h.id].top == old(arenas[h.id].top + if IsFull(h) then BlockSize(2 * lists[h].cap) else 0)
      ensures r.Some? ==>
                var b := old(lists)[h]; lists == (old(lists) - {h})[r.value := Widened(b, b.items + [value])]
      ensures r.Some? && old(IsFull(h)) ==>
                h !in lists && arenas[h.id].LeftBehind(h.off, old(lists)[h], r.value.off)
    {
      assert Ref(h.id, h.off) == h;
      arenas[h.id].MetaOf(h.off);
      ghost var before := arenas[h.id].blocks;
      var off := arenas[h.id].ListAppend(h.off, value);
      if off == None {
        return None;
      }
      r := Some(Ref(h.id, off.value));
      assert arenas[h.id].blocks == (before - {h.off})[off.value := arenas[h.id].blocks[off.value]];
      Relocate(h, off.value, arenas[h.id].blocks[off.value], before);
    }

    method ListInsert(h: Ref, i: int, value: Word) returns (r: Option<Ref>)
      requires Valid() && h in lists && !Stuck(h)
      modifies this, arenas[h.id]
      ensures Valid() && live == old(live)
      ensures r == None <==> !(-|old(lists)[h].items| <= i < |old(lists)[h].items|) || old(NoRoom(h))
      ensures r == None ==> lists == old(lists) && unchanged(arenas[h.id])
      ensures r.Some? ==> r.value.id == h.id && if old(IsFull(h)) then r.value !in old(lists) else r.value == h
      ensures r.Some? ==>
                arenas[h.id].top == old(arenas[h.id].top + if IsFull(h) then BlockSize(2 * lists[h].cap) else 0)
      ensures r.Some? ==>
                var b := old(lists)[h]; lists == (old(lists) - {h})[r.value := Widened(b, Inserted(b.items, i, value))]
    {
      assert Ref(h.id, h.off) == h;
      arenas[h.id].MetaOf(h.off);
      ghost var before := arenas[h.id].blocks;
      var off := arenas[h.id].ListInsert(h.off, i, value);
      if off == None {
        return None;
      }
      r := Some(Ref(h.id, off.value));
      ghost var nb := arenas[h.id].blocks[off.value];
      assert arenas[h.id].blocks == (before - {h.off})[off.value := nb];
      Relocate(h, off.value, nb, before);
    }

    method ListPop(h: Ref) returns (r: Option<Word>)
      requires Valid() && h in lists
      modifies this, arenas[h.id]
      ensures Valid() && live == old(live)
      ensures SameTop(h.id)
      ensures var b := old(lists)[h];
              r == Last(b.items) && lists == old(lists)[h := With(b, Popped(b.items))]
    {
      assert Ref(h.id, h.off) == h;
      ghost var before := arenas[h.id].blocks;
      ghost var ys := Popped(lists[h].items);
      r := arenas[h.id].ListPop(h.off);
      InPlace(h, ys, before);
    }

    method ListSet(h: Ref, i: int, value: Word) returns (ok: bool)
      requires Valid() && h in lists
      modifies this, arenas[h.id]
      ensures Valid() && live == old(live)
      ensures SameTop(h.id)
      ensures var b := old(lists)[h];
              && (ok <==> -|b.items| <= i < |b.items|)
              && lists == if ok then old(lists)[h := With(b, Replaced(b.items, i, value))] else old(lists)
    {
      assert Ref(h.id, h.off) == h;
      ghost var before := arenas[h.id].blocks;
      ghost var xs := lists[h].items;
      ok := arenas[h.id].ListSet(h.off, i, value);
      if ok {
        InPlace(h, Replaced(xs, i, value), before);
      } else {
        SameBlock(h, before);
        InPlace(h, xs, before);
      }
    }

    method ListClear(h: Ref)
      requires Valid() && h in lists
      modifies this, arenas[h.id]
      ensures Valid() && live == old(live) && lists == old(lists)[h := With(old(lists)[h], [])]
      ensures SameTop(h.id)
    {
      assert Ref(h.id, h.off) == h;
      ghost var before := arenas[h.id].blocks;
      arenas[h.id].ListClear(h.off);
      InPlace(h, [], before);
    }

    method ListIndex(h: Ref, i: int) returns (r: Option<Word>)
      requires Valid() && h in lists
      ensures var xs := lists[h].items;
              r == if -|xs| <= i < |xs| then Some(xs[if i < 0 then i + |xs| else i]) else None
    {
      assert Ref(h.id, h.off) == h;
      r := arenas[h.id].ListIndex(h.off, i);
    }

    method ListFind(h: Ref, value: Word, start: int, end: int) returns (r: Option<int>)
      requires Valid() && h in lists
      ensures r == Located(lists[h].items, value, start, end)
    {
      assert Ref(h.id, h.off) == h;
      r := arenas[h.id].ListFind(h.off, value, start, end);
    }

    // Whether the next element moves the list.
    method AtCapacity(h: Ref) returns (full: bool)
      requires Valid() && h in lists
      ensures full <==> IsFull(h)
    {
      assert Ref(h.id, h.off) == h;
      arenas[h.id].MetaOf(h.off);
      var meta := arenas[h.id].memory[h.off];
      full := LenOf(meta) == CapOf(meta);
    }

    method ListRemove(h: Ref, value: Word) returns (ok: bool)
      requires Valid() && h in lists
      modifies this, arenas[h.id]
      ensures Valid() && live == old(live)
      ensures SameTop(h.id)
      ensures var b := old(lists)[h];
              && (ok <==> value in b.items)
              && lists == if ok then old(lists)[h := With(b, Removed(b.items, value))] else old(lists)
    {
      assert Ref(h.id, h.off) == h;
      ghost var before := arenas[h.id].blocks;
      ghost var xs := lists[h].items;
      ok := arenas[h.id].ListRemove(h.off, value);
      if ok {
        InPlace(h, Removed(xs, value), before);
      } else {
        SameBlock(h, before);
        InPlace(h, xs, before);
      }
    }

    method ListReverse(h: Ref)
      requires Valid() && h in lists
      modifies this, arenas[h.id]
      ensures Valid() && live == old(live)
      ensures var b := old(lists)[h]; lists == old(lists)[h := With(b, Reversed(b.items))]
      ensures SameTop(h.id)
    {
      assert Ref(h.id, h.off) == h;
      ghost var before := arenas[h.id].blocks;
      ghost var xs := lists[h].items;
      arenas[h.id].ListReverse(h.off);
      InPlace(h, Reversed(xs), before);
    }

    // The block of h has the elements ys now, at the same offset.
    method InPlace(h: Ref, ghost ys: seq<Word>, ghost before: map<int, Block>)
      requires Slots() && h.id in live && NamesBlocks(lists, h.id, before) && IsListAt(before, h.off)
      requires arenas[h.id].Valid() && arenas[h.id].id == h.id
      requires arenas[h.id].blocks == before[h.off := Block(before[h.off].cap, ys)]
      requires forall r :: r in lists && r.id != h.id ==> r.id in live && arenas[r.id].IsList(r.off)
      requires forall k :: k in live && k != h.id ==> Names(lists, k)
      modifies this`lists
      ensures Valid() && h in old(lists) && lists == old(lists)[h := With(old(lists)[h], ys)]
    {
      assert Ref(h.id, h.off) == h;
      ghost var nb := With(lists[h], ys);
      assert before[h.off := nb] == (before - {h.off})[h.off := nb];
      assert (lists - {h})[h := nb] == lists[h := nb];
      Relocate(h, h.off, nb, before);
    }

    // A block that did not change.
    lemma SameBlock(h: Ref, before: map<int, Block>)
      requires NamesBlocks(lists, h.id, before) && IsListAt(before, h.off)
      ensures h in lists && before[h.off] == lists[h]
      ensures before == before[h.off := Block(before[h.off].cap, lists[h].items)]
      ensures lists == lists[h := With(lists[h], lists[h].items)]
    {
      assert Ref(h.id, h.off) == h;
    }

    method Read(h: Ref) returns (xs: seq<Word>)
      requires Valid() && h in lists
      ensures xs == lists[h].items
    {
      assert Ref(h.id, h.off) == h;
      xs := arenas[h.id].ReadItems(h.off);
    }

    // A new list in arena id, which may be the arena of either operand and may grow.
    method ListConcat(id: int, h1: Ref, h2: Ref) returns (r: Option<Ref>)
      requires Valid() && id in live && h1 in lists && h2 in lists
      requires !arenas[id].Full()
      modifies this, arenas[id]
      ensures Valid() && live == old(live)
      ensures r == None ==> lists == old(lists) && unchanged(arenas[id])
      ensures var zs := old(lists)[h1].items + old(lists)[h2].items;
              && (r == None <==> old(Overfull(id, |zs|)))
              && (r.Some? ==>
                    && r.value.id == id && r.value !in old(lists) && lists == old(lists)[r.value := Sized(zs)]
                    && TookBlock(id, |zs|))
    {
      var xs, ys := ReadBoth(h1, h2);
      r := Joined(id, xs, ys);
    }

    method ReadBoth(h1: Ref, h2: Ref) returns (xs: seq<Word>, ys: seq<Word>)
      requires Valid() && h1 in lists && h2 in lists
      ensures xs == lists[h1].items && ys == lists[h2].items && |xs| + |ys| < TWO32
    {
      xs := Read(h1);
      ys := Read(h2);
      ShortLists(h1);
      ShortLists(h2);
    }

    // A new list, filled by two copies.
    method Joined(id: int, xs: seq<Word>, ys: seq<Word>) returns (r: Option<Ref>)
      requires Valid() && id in live && |xs| + |ys| < TWO32 && !arenas[id].Full()
      modifies this, arenas[id]
      ensures Valid() && live == old(live)
      ensures r == None <==> old(Overfull(id, |xs| + |ys|))
      ensures r == None ==> lists == old(lists) && unchanged(arenas[id])
      ensures r.Some? ==>
                && r.value.id == id && r.value !in old(lists) && lists == old(lists)[r.value := Sized(xs + ys)]
      ensures r.Some? ==> TookBlock(id, |xs| + |ys|)
    {
      ghost var was := lists;
      r := ListCreate(id, None, |xs| + |ys|);
      if r.Some? {
        ghost var made := lists[r.value];
        assert With(made, xs + ys) == Sized(xs + ys);
        Fill(r.value, xs, ys);
        SetTwice(was, r.value, made, Sized(xs + ys));
      }
    }

    // The elements of list h are overwritten by those of two others.
    method Fill(h: Ref, xs: seq<Word>, ys: seq<Word>)
      requires Valid() && h in lists && |lists[h].items| == |xs| + |ys|
      modifies this, arenas[h.id]
      ensures Valid() && live == old(live) && lists == old(lists)[h := With(old(lists)[h], xs + ys)]
      ensures SameTop(h.id)
    {
      assert Ref(h.id, h.off) == h;
      ghost var before := arenas[h.id].blocks;
      arenas[h.id].CopyBoth(h.off, xs, ys);
      InPlace(h, xs + ys, before);
    }

    method FillTimes(h: Ref, xs: seq<Word>, n: nat)
      requires Valid() && h in lists && |lists[h].items| == |Repeat(xs, n)|
      modifies this, arenas[h.id]
      ensures Valid() && live == old(live) && lists == old(lists)[h := With(old(lists)[h], Repeat(xs, n))]
      ensures SameTop(h.id)
    {
      assert Ref(h.id, h.off) == h;
      ghost var before := arenas[h.id].blocks;
      arenas[h.id].CopyTimes(h.off, xs, n);
      InPlace(h, Repeat(xs, n), before);
    }

    // The length is taken modulo 2^32, and so is the number of copies. Where the length wraps and
    // can be allocated all the same, some copy leaves the block; the model stops before that.
    method ListMult(id: int, h: Ref, times: int) returns (r: Repetition)
      requires Valid() && id in live && h in lists && !arenas[id].Full()
      modifies this, arenas[id]
      ensures Valid() && live == old(live)
      ensures var n := |old(lists)[h].items|;
              && (r.Panic? <==> old(Overfull(id, MultLength(n, times))))
              && (r.Escape? <==> old(!Overfull(id, MultLength(n, times))) && MultWraps(n, times))
      ensures r.Panic? ==> lists == old(lists) && unchanged(arenas[id])
      ensures r.Made? ==> r.list.id == id && r.list !in old(lists)
                          && lists == old(lists)[r.list := Sized(Repeat(old(lists)[h].items, times % TWO32))]
      ensures !r.Panic? ==> TookBlock(id, MultLength(|old(lists)[h].items|, times))
    {
      var xs := Read(h);
      var len := MultLength(|xs|, times);
      ghost var was := lists;
      var list := ListCreate(id, None, len);
      if list == None {
        return Panic;
      }
      if MultWraps(|xs|, times) {
        return Escape;
      }
      ghost var made := lists[list.value];
      MultCopies(xs, times);
      FillTimes(list.value, xs, times % TWO32);
      SetTwice(was, list.value, made, Sized(Repeat(xs, times % TWO32)));
      r := Made(list.value);
    }

    // The repetition is Python's, or the code panics, exactly when the arena has no room for the
    // length it asks for, or that is the true length and the count is kept. Where the model stops
    // instead, the code writes outside the block.
    method ListMultIsPython(id: int, h: Ref, times: int) returns (r: Repetition)
      requires Valid() && id in live && h in lists && !arenas[id].Full()
      modifies this, arenas[id]
      ensures Valid()
      ensures r.Panic?
              || (r.Made? && r.list in lists && lists[r.list].items == PythonRepeat(old(lists)[h].items, times))
              <==> old(Overfull(id, MultLength(|lists[h].items|, times))
                     || (!MultWraps(|lists[h].items|, times) && CountKept(lists[h].items, times)))
      ensures r.Escape? ==> LeavesBlock(|old(lists)[h].items|, times)
    {
      ghost var len := |lists[h].items|;
      RepeatIsPython(lists[h].items, times);
      ShortLists(h);
      r := ListMult(id, h, times);
      if r.Escape? {
        MultEscapes(len, times);
      }
    }

    // The slot stays in use; its lists are dead.
    method ArenaClear(id: int)
      requires Valid() && id in live
      modifies this, arenas[id]
      ensures Valid() && live == old(live) && arenas[id].top == 0 && lists == Without(old(lists), id)
    {
      arenas[id].Clear();
      Rename(id, Without(lists, id));
    }
  }

  ghost predicate IsListAt(blocks: map<int, Block>, o: int) {
    o in blocks && blocks[o].Block?
  }

  // The lists of arena k under their names.
  ghost predicate NamesBlocks(ls: map<Ref, ListBlock>, k: int, blocks: map<int, Block>) {
    && (forall o {:trigger Ref(k, o)} {:trigger o in blocks} :: Ref(k, o) in ls <==> IsListAt(blocks, o))
    && (forall o {:trigger blocks[o]} :: IsListAt(blocks, o) ==> ls[Ref(k, o)] == blocks[o])
  }

  lemma MoveNames(ls: map<Ref, ListBlock>, h: Ref, blocks: map<int, Block>, off: int, nb: Block)
    requires NamesBlocks(ls, h.id, blocks) && nb.Block?
    ensures NamesBlocks((ls - {h})[Ref(h.id, off) := nb], h.id, (blocks - {h.off})[off := nb])
    ensures SameElsewhere(ls, (ls - {h})[Ref(h.id, off) := nb], h.id)
  {
    var ls', blocks' := (ls - {h})[Ref(h.id, off) := nb], (blocks - {h.off})[off := nb];
    forall o
      ensures Ref(h.id, o) in ls' <==> IsListAt(blocks', o)
      ensures IsListAt(blocks', o) ==> ls'[Ref(h.id, o)] == blocks'[o]
    {
      assert Ref(h.id, o) == h <==> o == h.off;
      assert Ref(h.id, o) in ls <==> IsListAt(blocks, o);
    }
  }

  lemma SetTwice(ls: map<Ref, ListBlock>, h: Ref, xs: ListBlock, ys: ListBlock)
    ensures ls[h := xs][h := ys] == ls[h := ys]
  {
  }

  // Two views that differ at most in the lists of one arena.
  ghost predicate SameElsewhere(ls: map<Ref, ListBlock>, ls': map<Ref, ListBlock>, id: int) {
    && (forall r: Ref {:trigger r in ls'} {:trigger r in ls} :: r.id != id ==> (r in ls' <==> r in ls))
    && (forall r: Ref {:trigger ls'[r]} {:trigger ls[r]} :: r.id != id && r in ls && r in ls' ==> ls'[r] == ls[r])
  }

  // The view without the lists of one arena.
  function Without(ls: map<Ref, ListBlock>, id: int): map<Ref, ListBlock> {
    map r | r in ls && r.id != id :: ls[r]
  }

  function Below(n: nat): (r: set<int>)
    ensures |r| == n && forall k :: k in r <==> 0 <= k < n
  {
    if n == 0 then {} else Below(n - 1) + {n - 1}
  }

  ghost predicate Full(w: seq<bool>) {
    forall b :: 0 <= b < |w| ==> w[b]
  }

  // After how many turns the scan from idx reaches word w.
  function Steps(idx: int, w: int, n: int): int {
    if w >= idx then w - idx else w + n - idx
  }

  // Going up from the cursor, and from word 0 on behind the last one.
  lemma StepsGoUp(idx: int, w: int, n: int)
    requires 0 <= idx < n && 0 <= w < n
    ensures 0 <= Steps(idx, w, n) < n && Steps(idx, idx, n) == 0
    ensures w != idx ==> Steps(idx, w, n) == Steps(idx, if w == 0 then n - 1 else w - 1, n) + 1
  {
  }

  // Turn i of the scan looks at the one word that is i steps away.
  lemma StepsReach(idx: int, i: int, n: int)
    requires 0 <= idx < n && 0 <= i < n
    ensures 0 <= (idx + i) % n < n
    ensures Steps(idx, (idx + i) % n, n) == i
    ensures forall w :: 0 <= w < n && Steps(idx, w, n) == i ==> w == (idx + i) % n
  {
    if idx + i < n {
      DivUnique(idx + i, n, 0, idx + i);
    } else {
      DivUnique(idx + i, n, 1, idx + i - n);
    }
  }
}

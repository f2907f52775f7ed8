/**
 str() of a list, as the runtime makes it. A first pass turns every element into a string object
 and adds up the lengths; a second pass writes brackets, separators, quotes and element texts
 into one string object of that length. Lists and strings are in the memories of any arenas; new
 strings are made in one of them.
 */
module Stringify {
  import opened Arenas
  import opened Bits
  import opened Bytes
  import opened Memory
  import opened Rendering
  import opened Sequences
  import opened Strings
  import opened Wrappers
  import D = Duckbox

  // ---- Ducks that name strings ----

  // A STR reference into an arena.
  function StrDuck(r: Ref): Word
    requires 0 <= r.id < 0x1_0000 && 0 <= r.off < TWO32
  {
    D.FULL_EXP + 2 * D.TWO48 + TWO32 * r.id + r.off
  }

  // Arena and offset of a reference, computed from its fields.
  function RefOf(w: Word): (r: Ref)
    ensures r.id == D.ArenaIdOf(w) && r.off == D.OffsetOf(w)
  {
    D.UnpackRef(w);
    Ref(w / TWO32 % 0x1_0000, w % TWO32)
  }

  lemma StrDuckIsRef(r: Ref)
    requires 0 <= r.id < 0x1_0000 && 0 <= r.off < TWO32
    ensures StrDuck(r) == D.PackRef(D.STR, r.id, r.off)
    ensures TagOf(StrDuck(r)) == D.STR && RefOf(StrDuck(r)) == r
  {
    D.RefFields(2, 0, r.id, r.off);
    D.RefRoundTrip(D.STR, r.id, r.off);
  }

  // What is asked of the functions that read ducks: they read the ducks of new strings.
  ghost predicate ReadsStrings(tag: Word -> D.Tag, at: Word -> Ref) {
    forall r: Ref {:trigger StrDuck(r)} :: 0 <= r.id < 0x1_0000 && 0 <= r.off < TWO32 ==>
      tag(StrDuck(r)) == D.STR && at(StrDuck(r)) == r
  }

  lemma DucksReadStrings()
    ensures ReadsStrings(TagOf, RefOf)
  {
    forall r: Ref | 0 <= r.id < 0x1_0000 && 0 <= r.off < TWO32
      ensures TagOf(StrDuck(r)) == D.STR && RefOf(StrDuck(r)) == r
    {
      StrDuckIsRef(r);
    }
  }

  // ---- What is in the arenas ----

  // The blocks of every arena.
  type Blocks = seq<map<int, Block>>

  ghost predicate TextAt(s: Blocks, r: Ref) {
    0 <= r.id < |s| && r.off in s[r.id] && s[r.id][r.off].TextBlock?
  }

  ghost predicate ListAt(s: Blocks, r: Ref) {
    0 <= r.id < |s| && r.off in s[r.id] && s[r.id][r.off].Block?
  }

  ghost function CharsAt(s: Blocks, r: Ref): string
    requires TextAt(s, r)
  {
    s[r.id][r.off].chars
  }

  // Every block is still there, and the same.
  ghost predicate Keeps(s: Blocks, s': Blocks) {
    |s'| == |s| && forall r: Ref {:trigger KeepsAt(s, s', r)} :: KeepsAt(s, s', r)
  }

  ghost predicate KeepsAt(s: Blocks, s': Blocks, r: Ref)
    requires |s'| == |s|
  {
    0 <= r.id < |s| && r.off in s[r.id] ==> r.off in s'[r.id] && s'[r.id][r.off] == s[r.id][r.off]
  }

  lemma KeepsTwice(s: Blocks, s': Blocks, s'': Blocks)
    requires Keeps(s, s') && Keeps(s', s'')
    ensures Keeps(s, s'')
  {
    forall r: Ref
      ensures KeepsAt(s, s'', r)
    {
      assert KeepsAt(s, s', r) && KeepsAt(s', s'', r);
    }
  }

  // The lists and strings of the world are in these blocks.
  ghost predicate Shows(s: Blocks, at: Word -> Ref, w: World) {
    && (forall l {:trigger l in w.lists} :: l in w.lists ==>
         ListAt(s, at(l)) && s[at(l).id][at(l).off].items == w.lists[l])
    && (forall h {:trigger h in w.texts} :: h in w.texts ==> TextAt(s, at(h)) && CharsAt(s, at(h)) == w.texts[h])
  }

  lemma ShowsStays(s: Blocks, s': Blocks, at: Word -> Ref, w: World)
    requires Shows(s, at, w) && Keeps(s, s')
    ensures Shows(s', at, w)
  {
    forall l | l in w.lists
      ensures ListAt(s', at(l)) && s'[at(l).id][at(l).off].items == w.lists[l]
    {
      assert KeepsAt(s, s', at(l));
    }
    forall h | h in w.texts
      ensures TextAt(s', at(h)) && CharsAt(s', at(h)) == w.texts[h]
    {
      assert KeepsAt(s, s', at(h));
    }
  }

  // The same blocks, with the same lengths, except for the characters of the string at r.
  ghost predicate SameBut(s: Blocks, s': Blocks, r: Ref) {
    && |s'| == |s| && (forall k :: 0 <= k < |s| && k != r.id ==> s'[k] == s[k])
    && (0 <= r.id < |s| ==>
          && s'[r.id].Keys == s[r.id].Keys
          && forall o {:trigger s'[r.id][o]} :: o in s[r.id] && o != r.off ==> s'[r.id][o] == s[r.id][o])
  }

  lemma KeepsBut(start: Blocks, s: Blocks, s': Blocks, r: Ref)
    requires Keeps(start, s) && SameBut(s, s', r) && 0 <= r.id < |s| && r.off !in start[r.id]
    ensures Keeps(start, s')
  {
    forall r': Ref
      ensures KeepsAt(start, s', r')
    {
      assert KeepsAt(start, s, r');
    }
  }

  // A string that was not there before is none of those that were.
  lemma OthersAreOld(s: Blocks, at: Word -> Ref, strs: seq<Word>, h: Word, quoted: seq<bool>, parts: seq<string>)
    requires Gathered(s, at, quoted, strs, parts, |strs|) && 0 <= at(h).id < |s| && at(h).off !in s[at(h).id]
    ensures forall j :: 0 <= j < |strs| ==> at(strs[j]) != at(h)
  {
    forall j | 0 <= j < |strs|
      ensures at(strs[j]) != at(h)
    {
      assert TextAt(s, at(strs[j]));
    }
  }

  // The strings of the first n elements are there, and give these parts.
  ghost predicate Gathered(s: Blocks, at: Word -> Ref, quoted: seq<bool>, strs: seq<Word>, parts: seq<string>, n: nat) {
    && n == |strs| == |quoted| <= |parts|
    && forall j {:trigger strs[j]} :: 0 <= j < n ==>
         TextAt(s, at(strs[j])) && parts[j] == Quote(quoted[j], CharsAt(s, at(strs[j])))
  }

  lemma GatheredStays(s: Blocks, s': Blocks, at: Word -> Ref, quoted: seq<bool>, strs: seq<Word>, parts: seq<string>,
                      n: nat)
    requires Gathered(s, at, quoted, strs, parts, n) && Keeps(s, s')
    ensures Gathered(s', at, quoted, strs, parts, n)
  {
    forall j | 0 <= j < n
      ensures TextAt(s', at(strs[j])) && parts[j] == Quote(quoted[j], CharsAt(s', at(strs[j])))
    {
      assert KeepsAt(s, s', at(strs[j]));
    }
  }

  lemma GatheredMore(s: Blocks, at: Word -> Ref, quoted: seq<bool>, strs: seq<Word>, parts: seq<string>, i: nat,
                     q: bool, h: Word)
    requires Gathered(s, at, quoted, strs, parts, i) && i < |parts|
    requires TextAt(s, at(h)) && parts[i] == Quote(q, CharsAt(s, at(h)))
    ensures Gathered(s, at, quoted + [q], strs + [h], parts, i + 1)
    ensures |Written(parts, i + 1)|
         == |Written(parts, i)| + |CharsAt(s, at(h))| + (if q then 2 else 0) + (if i < |parts| - 1 then 2 else 0)
  {
  }

  ghost function Height(tag: Word -> D.Tag, rank: Word -> nat, e: Word): nat {
    if tag(e) == D.LIST then rank(e) + 1 else 0
  }

  lemma {:induction false} PartAt(w: World, rank: Word -> nat, l: Word, i: nat, n: nat)
    requires Nested(w, rank) && l in w.lists && i < n <= |w.lists[l]|
    ensures var e := w.lists[l][i];
            && Known(w, e) && Height(w.tag, rank, e) <= rank(l)
            && Parts(w, rank, l, n)[i] == Quote(w.tag(e) == D.STR, Text(w, rank, e))
    decreases n
  {
    if i < n - 1 {
      PartAt(w, rank, l, i, n - 1);
    }
  }

  // What the first pass is to find: the part of every element, and the top before and after each.
  ghost predicate Plan(w: World, rank: Word -> nat, l: Word, parts: seq<string>, tops: seq<int>) {
    && Nested(w, rank) && l in w.lists && |w.lists[l]| == |parts| == |tops| - 1
    && forall i {:trigger Planned(w, rank, l, parts, tops, i)} :: 0 <= i <= |parts| ==>
         Planned(w, rank, l, parts, tops, i)
  }

  ghost predicate Planned(w: World, rank: Word -> nat, l: Word, parts: seq<string>, tops: seq<int>, i: int)
    requires Nested(w, rank) && l in w.lists && |w.lists[l]| == |parts| == |tops| - 1 && 0 <= i <= |parts|
  {
    && tops[i] == TopAfterFirst(w, rank, l, i, tops[0])
    && (i < |parts| ==>
          var e := w.lists[l][i];
          && Known(w, e) && Height(w.tag, rank, e) <= rank(l)
          && parts[i] == Quote(w.tag(e) == D.STR, Text(w, rank, e))
          && tops[i + 1] == TopAfter(w, rank, e, tops[i]))
  }

  lemma {:induction false} MakePlan(w: World, rank: Word -> nat, l: Word, top: int)
    returns (parts: seq<string>, tops: seq<int>)
    requires Nested(w, rank) && l in w.lists
    ensures var n := |w.lists[l]|;
            && Plan(w, rank, l, parts, tops) && parts == Parts(w, rank, l, n)
            && tops[0] == top && tops[n] == TopAfterFirst(w, rank, l, n, top)
  {
    var n := |w.lists[l]|;
    parts := Parts(w, rank, l, n);
    tops := seq(n + 1, i requires 0 <= i <= n => TopAfterFirst(w, rank, l, i, top));
    forall i | 0 <= i <= n
      ensures Planned(w, rank, l, parts, tops, i)
    {
      if i < n {
        PartAt(w, rank, l, i, n);
        assert TopAfterFirst(w, rank, l, i + 1, top) ==
               TopAfter(w, rank, w.lists[l][i], TopAfterFirst(w, rank, l, i, top));
      }
    }
  }

  // What has failed before the end of the list has failed at its end.
  lemma PlanFails(w: World, rank: Word -> nat, l: Word, parts: seq<string>, tops: seq<int>, i: nat)
    requires Plan(w, rank, l, parts, tops) && i <= |parts| && Failed(tops[i])
    ensures tops[|parts|] == tops[i]
  {
    assert Planned(w, rank, l, parts, tops, i) && Planned(w, rank, l, parts, tops, |parts|);
    FailureStaysFirst(w, rank, l, i, |parts|, tops[0]);
  }

  lemma QuotesAround(done: string, chars: string)
    ensures done + "'" + chars + "'" == done + Quote(true, chars)
  {
  }

  // The text of a list, and the room it takes, from what its elements give.
  lemma {:induction false} ListUnfolds(w: World, rank: Word -> nat, l: Word, top: int)
    requires Nested(w, rank) && l in w.lists && w.tag(l) == D.LIST
    ensures var n := |w.lists[l]|;
            var parts := Parts(w, rank, l, n);
            && Text(w, rank, l) == "[" + Written(parts, n) + "]" && |Text(w, rank, l)| == 2 + |Written(parts, n)|
            && TopAfter(w, rank, l, top) == Allocated(TopAfterFirst(w, rank, l, n, top), Room(|Text(w, rank, l)|))
            && (n == 0 ==> Text(w, rank, l) == "[]" && TopAfter(w, rank, l, top) == Allocated(top, Room(2)))
  {
    WrittenIsJoin(Parts(w, rank, l, |w.lists[l]|));
  }

  lemma WholePrefix(s: string, t: string)
    requires s <= t && |s| == |t|
    ensures s == t
  {
    assert t[..|s|] == t;
  }

  // ---- The runtime ----

  class Runtime {
    const arenas: seq<Arena>
    const cur: nat
    const tag: Word -> D.Tag
    const at: Word -> Ref
    const g: Word -> string

    constructor (arenas: seq<Arena>, cur: nat, tag: Word -> D.Tag, at: Word -> Ref, g: Word -> string)
      ensures this.arenas == arenas && this.cur == cur && this.tag == tag && this.at == at && this.g == g
    {
      this.arenas, this.cur, this.tag, this.at, this.g := arenas, cur, tag, at, g;
    }

    ghost predicate Valid()
      reads arenas
    {
      && cur < |arenas| <= 0x1_0000 && ReadsStrings(tag, at)
      && (forall i, j :: 0 <= i < j < |arenas| ==> arenas[i] != arenas[j])
      && (forall k {:trigger Sound(k)} :: Sound(k))
    }

    ghost predicate Sound(k: int)
      reads arenas
    {
      0 <= k < |arenas| ==> arenas[k].Valid()
    }

    ghost function Snap(): (s: Blocks)
      reads arenas
      ensures |s| == |arenas| && forall k :: 0 <= k < |s| ==> s[k] == arenas[k].blocks
    {
      seq(|arenas|, k requires 0 <= k < |arenas| reads arenas => arenas[k].blocks)
    }

    // The current arena hands out no words, and its memory stays.
    twostate predicate SameTop()
      requires cur < |arenas|
      reads arenas[cur]
    {
      arenas[cur].top == old(arenas[cur].top) && arenas[cur].logCap == old(arenas[cur].logCap)
    }

    // It has handed out the words of one string. Raw pointers into it that were taken before, such
    // as those to the operands of a concatenation, are good afterwards exactly when it had the room.
    twostate predicate TookString(len: nat)
      requires cur < |arenas|
      reads arenas[cur]
    {
      && arenas[cur].top == Allocated(old(arenas[cur].top), Room(len))
      && (arenas[cur].logCap == old(arenas[cur].logCap) <==> old(arenas[cur].Stays(Room(len))))
    }

    // A new string object in the current arena.
    method NewString(init: Option<string>, len: nat) returns (r: Option<Word>)
      requires Valid() && !arenas[cur].Full() && (init.Some? ==> |init.value| == len && AreBytes(init.value))
      modifies arenas[cur]
      ensures Valid() && Keeps(old(Snap()), Snap())
      ensures r.Some? <==> !Failed(Allocated(old(arenas[cur].top), Room(len)))
      ensures r.Some? ==> TookString(len)
      ensures r.Some? ==> tag(r.value) == D.STR && TextAt(Snap(), at(r.value)) && at(r.value).id == cur
      ensures r.Some? ==>
                && |CharsAt(Snap(), at(r.value))| == len
                && (init.Some? ==> CharsAt(Snap(), at(r.value)) == init.value)
      ensures r.Some? ==> at(r.value).off !in old(Snap())[cur]
      ensures r.Some? && init.Some? && len > 0 ==> IsTerminated(arenas[cur], at(r.value).off)
    {
      assert Sound(cur);
      var a := arenas[cur];
      var off := StrNew(a, init, len);
      forall k
        ensures Sound(k)
      {
        assert old(Sound(k));
      }
      if off == None {
        return None;
      }
      RoomCovers(len);
      r := Some(StrDuck(Ref(cur, off.value)));
      assert at(r.value) == Ref(cur, off.value);
    }

    method ReadString(h: Word) returns (s: string)
      requires Valid() && TextAt(Snap(), at(h))
      ensures s == CharsAt(Snap(), at(h)) && AreBytes(s)
    {
      assert Sound(at(h).id);
      s := ReadText(arenas[at(h).id], at(h).off);
    }

    method ReadList(l: Word) returns (elems: seq<Word>)
      requires Valid() && ListAt(Snap(), at(l))
      ensures elems == Snap()[at(l).id][at(l).off].items
    {
      assert Sound(at(l).id);
      elems := arenas[at(l).id].ReadItems(at(l).off);
    }

    // ---- str() ----

    // The world is in memory, and read the same way.
    ghost predicate Has(w: World)
      reads arenas
    {
      w.tag == tag && w.g == g && Shows(Snap(), at, w)
    }

    // A string passes through; a list is rendered; anything else gets a new string. No result
    // means that the code panics. What it does in a full arena is excluded.
    method UnpackStr(e: Word, ghost w: World, ghost rank: Word -> nat) returns (r: Option<Word>)
      requires Valid() && Nested(w, rank) && Known(w, e) && Has(w)
      requires TopAfter(w, rank, e, arenas[cur].top) != WRAPPED
      modifies arenas[cur]
      ensures Valid() && Keeps(old(Snap()), Snap())
      ensures r.Some? <==> !Failed(TopAfter(w, rank, e, old(arenas[cur].top)))
      ensures r.Some? ==> arenas[cur].top == TopAfter(w, rank, e, old(arenas[cur].top))
      ensures r.Some? ==>
                && tag(r.value) == D.STR && TextAt(Snap(), at(r.value))
                && CharsAt(Snap(), at(r.value)) == Text(w, rank, e)
      decreases Height(tag, rank, e), 0
    {
      assert Sound(cur);
      if tag(e) == D.STR {
        return Some(e);
      }
      if tag(e) == D.LIST {
        r := ListStr(e, w, rank);
      } else {
        ScalarFits(tag(e), g, e);
        var text := ScalarText(tag(e), g, e);
        r := NewString(Some(text), |text|);
      }
    }

    method ListStr(l: Word, ghost w: World, ghost rank: Word -> nat) returns (r: Option<Word>)
      requires Valid() && Nested(w, rank) && l in w.lists && tag(l) == D.LIST && Has(w)
      requires TopAfter(w, rank, l, arenas[cur].top) != WRAPPED
      modifies arenas[cur]
      ensures Valid() && Keeps(old(Snap()), Snap())
      ensures r.Some? <==> !Failed(TopAfter(w, rank, l, old(arenas[cur].top)))
      ensures r.Some? ==> arenas[cur].top == TopAfter(w, rank, l, old(arenas[cur].top))
      ensures r.Some? ==>
                && tag(r.value) == D.STR && TextAt(Snap(), at(r.value))
                && CharsAt(Snap(), at(r.value)) == Text(w, rank, l)
      ensures r.Some? ==> IsTerminated(arenas[cur], at(r.value).off)
      decreases rank(l), 4
    {
      var elems := ReadList(l);
      ListUnfolds(w, rank, l, arenas[cur].top);
      if |elems| == 0 {
        r := NewString(Some("[]"), 2);
      } else {
        r := Brackets(l, elems, w, rank);
      }
    }

    // The text itself, or a panic exactly when the current arena cannot hold all the strings made.
    method ListText(l: Word, ghost w: World, ghost rank: Word -> nat) returns (r: Option<string>)
      requires Valid() && Nested(w, rank) && l in w.lists && tag(l) == D.LIST && Has(w)
      requires TopAfter(w, rank, l, arenas[cur].top) != WRAPPED
      modifies arenas[cur]
      ensures r == if old(arenas[cur].top) + Need(w, rank, l) <= TWO32 then Some(Text(w, rank, l)) else None
    {
      assert Sound(cur);
      NeedIsExact(w, rank, l, arenas[cur].top);
      var h := ListStr(l, w, rank);
      if h == None {
        return None;
      }
      var s := ReadString(h.value);
      r := Some(s);
    }

    method Brackets(l: Word, elems: seq<Word>, ghost w: World, ghost rank: Word -> nat) returns (r: Option<Word>)
      requires Valid() && Nested(w, rank) && l in w.lists && tag(l) == D.LIST && elems == w.lists[l] && Has(w)
      requires TopAfter(w, rank, l, arenas[cur].top) != WRAPPED
      modifies arenas[cur]
      ensures Valid() && Keeps(old(Snap()), Snap())
      ensures r.Some? <==> !Failed(TopAfter(w, rank, l, old(arenas[cur].top)))
      ensures r.Some? ==> arenas[cur].top == TopAfter(w, rank, l, old(arenas[cur].top))
      ensures r.Some? ==>
                && tag(r.value) == D.STR && TextAt(Snap(), at(r.value))
                && CharsAt(Snap(), at(r.value)) == Text(w, rank, l)
      ensures r.Some? ==> IsTerminated(arenas[cur], at(r.value).off)
      decreases rank(l), 3
    {
      ghost var before := Snap();
      ListUnfolds(w, rank, l, arenas[cur].top);
      ghost var parts, tops := MakePlan(w, rank, l, arenas[cur].top);
      assert Sound(cur);
      if Failed(tops[|elems|]) {
        assert tops[|elems|] == TopAfter(w, rank, l, arenas[cur].top);
      }
      var ok, quoted, strs, total := Gather(l, elems, w, rank, parts, tops);
      if !ok {
        return None;
      }
      ghost var mid := Snap();
      r := FillNew(total, quoted, strs, parts);
      KeepsTwice(before, mid, Snap());
    }

    // The first pass: the strings of the elements, and the length of the result.
    method Gather(l: Word, elems: seq<Word>, ghost w: World, ghost rank: Word -> nat, ghost parts: seq<string>,
                  ghost tops: seq<int>)
      returns (ok: bool, quoted: seq<bool>, strs: seq<Word>, total: nat)
      requires Valid() && Plan(w, rank, l, parts, tops) && elems == w.lists[l] && Has(w)
      requires arenas[cur].top == tops[0] && tops[|elems|] != WRAPPED
      modifies arenas[cur]
      ensures Valid() && Keeps(old(Snap()), Snap())
      ensures ok <==> !Failed(tops[|elems|])
      ensures ok ==> arenas[cur].top == tops[|elems|]
      ensures ok ==> Gathered(Snap(), at, quoted, strs, parts, |elems|) && total == 2 + |Written(parts, |elems|)|
      decreases rank(l), 2
    {
      ghost var before := Snap();
      ok, quoted, strs, total := true, [], [], 2;
      var i := 0;
      while ok && i < |elems|
        invariant i <= |elems| && Valid() && Keeps(before, Snap())
        invariant ok ==> Gathered(Snap(), at, quoted, strs, parts, i) && total == 2 + |Written(parts, i)|
        invariant if ok then arenas[cur].top == tops[i] else Failed(tops[|elems|])
        decreases |elems| - i, ok
      {
        var str, more := GatherNext(l, elems, i, w, rank, parts, tops, quoted, strs, before);
        if str.Some? {
          quoted, strs := quoted + [tag(elems[i]) == D.STR], strs + [str.value];
          total := total + more;
          i := i + 1;
        } else {
          ok := false;
        }
      }
      assert Sound(cur);
    }

    // One turn, after others that have kept the blocks from before the first.
    method GatherNext(l: Word, elems: seq<Word>, i: nat, ghost w: World, ghost rank: Word -> nat,
                      ghost parts: seq<string>, ghost tops: seq<int>, ghost quoted: seq<bool>, ghost strs: seq<Word>,
                      ghost before: Blocks)
      returns (str: Option<Word>, more: nat)
      requires Valid() && Plan(w, rank, l, parts, tops) && elems == w.lists[l] && l in w.lists
      requires i < |elems| && Gathered(Snap(), at, quoted, strs, parts, i)
      requires Shows(before, at, w) && w.tag == tag && w.g == g && Keeps(before, Snap())
      requires arenas[cur].top == tops[i] && tops[|elems|] != WRAPPED
      modifies arenas[cur]
      ensures Valid() && Keeps(before, Snap())
      ensures if str.Some? then arenas[cur].top == tops[i + 1] else Failed(tops[|elems|])
      ensures str.Some? ==> Gathered(Snap(), at, quoted + [tag(elems[i]) == D.STR], strs + [str.value], parts, i + 1)
      ensures str.Some? ==> |Written(parts, i + 1)| == |Written(parts, i)| + more
      decreases rank(l), 1, 1
    {
      ghost var mid := Snap();
      ShowsStays(before, mid, at, w);
      if Failed(tops[i + 1]) {
        PlanFails(w, rank, l, parts, tops, i + 1);
      }
      str, more := GatherOne(l, elems, i, w, rank, parts, tops, quoted, strs);
      KeepsTwice(before, mid, Snap());
    }

    // One turn: the string of element i, and the length it adds.
    method GatherOne(l: Word, elems: seq<Word>, i: nat, ghost w: World, ghost rank: Word -> nat,
                     ghost parts: seq<string>, ghost tops: seq<int>, ghost quoted: seq<bool>, ghost strs: seq<Word>)
      returns (str: Option<Word>, more: nat)
      requires Valid() && Plan(w, rank, l, parts, tops) && elems == w.lists[l] && Has(w)
      requires i < |elems| && Gathered(Snap(), at, quoted, strs, parts, i)
      requires arenas[cur].top == tops[i] && tops[i + 1] != WRAPPED
      modifies arenas[cur]
      ensures Valid() && Keeps(old(Snap()), Snap())
      ensures str.Some? <==> !Failed(tops[i + 1])
      ensures str.Some? ==> arenas[cur].top == tops[i + 1]
      ensures str.Some? ==> Gathered(Snap(), at, quoted + [tag(elems[i]) == D.STR], strs + [str.value], parts, i + 1)
      ensures str.Some? ==> |Written(parts, i + 1)| == |Written(parts, i)| + more
      decreases rank(l), 1, 0
    {
      ghost var before := Snap();
      assert Planned(w, rank, l, parts, tops, i);
      str := UnpackStr(elems[i], w, rank);
      more := 0;
      if str.Some? {
        var quote := tag(elems[i]) == D.STR;
        GatheredStays(before, Snap(), at, quoted, strs, parts, i);
        GatheredMore(Snap(), at, quoted, strs, parts, i, quote, str.value);
        more := StringLength(str.value);
        if quote {
          more := more + 2;
        }
        if i < |elems| - 1 {
          more := more + 2;
        }
      }
    }

    method StringLength(h: Word) returns (n: nat)
      requires Valid() && TextAt(Snap(), at(h))
      ensures n == |CharsAt(Snap(), at(h))|
    {
      assert Sound(at(h).id);
      TextOf(arenas[at(h).id], at(h).off);
      n := arenas[at(h).id].memory[at(h).off];
    }

    // ---- The second pass ----

    // Of all blocks only the buffer h has changed since `before`; it starts with `done` now.
    ghost predicate Buffer(h: Word, before: Blocks, done: string)
      reads arenas
    {
      var s, r := Snap(), at(h);
      && r.id == cur && TextAt(before, r) && TextAt(s, r) && SameBut(before, s, r)
      && |CharsAt(s, r)| == |CharsAt(before, r)| && done <= CharsAt(s, r)
    }

    // Writes s behind what is done, within the length of the buffer.
    method Put(h: Word, pos: nat, s: string, ghost before: Blocks, ghost done: string) returns (pos': nat)
      requires Valid() && Buffer(h, before, done) && pos == |done| && AreBytes(s)
      requires pos + |s| <= |CharsAt(before, at(h))|
      modifies arenas[cur]
      ensures SameTop()
      ensures Valid() && Buffer(h, before, done + s) && pos' == pos + |s|
    {
      assert Sound(cur);
      PutText(arenas[cur], at(h).off, pos, s);
      forall k
        ensures Sound(k)
      {
        assert old(Sound(k));
      }
      pos' := pos + |s|;
    }

    // The buffer is full: the string is finished and terminated.
    method Finish(h: Word, ghost start: Blocks, ghost before: Blocks, ghost chars: string)
      requires Valid() && Buffer(h, before, chars) && |chars| == |CharsAt(before, at(h))|
      requires Keeps(start, before) && |start| > cur && at(h).off !in start[cur]
      modifies arenas[cur]
      ensures SameTop()
      ensures Valid() && Keeps(start, Snap()) && TextAt(Snap(), at(h)) && CharsAt(Snap(), at(h)) == chars
      ensures IsTerminated(arenas[cur], at(h).off)
    {
      WholePrefix(chars, CharsAt(Snap(), at(h)));
      assert Sound(cur);
      Terminate(arenas[cur], at(h).off);
      forall k
        ensures Sound(k)
      {
        assert old(Sound(k));
      }
      KeepsBut(start, before, Snap(), at(h));
    }

    // A new string object with the brackets, quotes, separators and element texts.
    method FillNew(total: nat, quoted: seq<bool>, strs: seq<Word>, ghost parts: seq<string>) returns (r: Option<Word>)
      requires Valid() && !arenas[cur].Full() && Gathered(Snap(), at, quoted, strs, parts, |parts|)
      requires total == 2 + |Written(parts, |parts|)|
      modifies arenas[cur]
      ensures Valid() && Keeps(old(Snap()), Snap())
      ensures r.Some? <==> !Failed(Allocated(old(arenas[cur].top), Room(total)))
      ensures r.Some? ==> arenas[cur].top == Allocated(old(arenas[cur].top), Room(total))
      ensures r.Some? ==> tag(r.value) == D.STR && TextAt(Snap(), at(r.value))
                          && CharsAt(Snap(), at(r.value)) == "[" + Written(parts, |parts|) + "]"
      ensures r.Some? ==> IsTerminated(arenas[cur], at(r.value).off)
    {
      ghost var start := Snap();
      r := NewString(None, total);
      if r.Some? {
        ghost var before := Snap();
        GatheredStays(start, before, at, quoted, strs, parts, |parts|);
        OthersAreOld(start, at, strs, r.value, quoted, parts);
        WriteAll(r.value, quoted, strs, parts);
        Finish(r.value, start, before, "[" + Written(parts, |parts|) + "]");
      }
    }

    // The second pass, into a buffer that is none of the element strings.
    method WriteAll(h: Word, quoted: seq<bool>, strs: seq<Word>, ghost parts: seq<string>)
      requires Valid() && Gathered(Snap(), at, quoted, strs, parts, |parts|)
      requires TextAt(Snap(), at(h)) && at(h).id == cur && forall j :: 0 <= j < |strs| ==> at(strs[j]) != at(h)
      requires |CharsAt(Snap(), at(h))| == 2 + |Written(parts, |parts|)|
      modifies arenas[cur]
      ensures SameTop()
      ensures Valid() && Buffer(h, old(Snap()), "[" + Written(parts, |parts|) + "]")
    {
      ghost var before := Snap();
      var pos := WriteItems(h, quoted, strs, parts);
      pos := Put(h, pos, "]", before, "[" + Written(parts, |parts|));
    }

    method WriteItems(h: Word, quoted: seq<bool>, strs: seq<Word>, ghost parts: seq<string>) returns (pos: nat)
      requires Valid() && Gathered(Snap(), at, quoted, strs, parts, |parts|)
      requires TextAt(Snap(), at(h)) && at(h).id == cur && forall j :: 0 <= j < |strs| ==> at(strs[j]) != at(h)
      requires |CharsAt(Snap(), at(h))| == 2 + |Written(parts, |parts|)|
      modifies arenas[cur]
      ensures SameTop()
      ensures Valid() && Buffer(h, old(Snap()), "[" + Written(parts, |parts|)) && pos == 1 + |Written(parts, |parts|)|
    {
      ghost var before := Snap();
      pos := Put(h, 0, "[", before, "");
      for i := 0 to |strs|
        invariant Valid() && Buffer(h, before, "[" + Written(parts, i)) && pos == 1 + |Written(parts, i)|
        invariant SameTop()
      {
        pos := WriteNth(h, pos, i, quoted, strs, before, parts);
      }
    }

    method WriteNth(h: Word, start: nat, i: nat, quoted: seq<bool>, strs: seq<Word>, ghost before: Blocks,
                    ghost parts: seq<string>)
      returns (pos: nat)
      requires Valid() && i < |parts| && Gathered(before, at, quoted, strs, parts, |parts|) && at(strs[i]) != at(h)
      requires Buffer(h, before, "[" + Written(parts, i)) && start == 1 + |Written(parts, i)|
      requires |CharsAt(before, at(h))| == 2 + |Written(parts, |parts|)|
      modifies arenas[cur]
      ensures SameTop()
      ensures Valid() && Buffer(h, before, "[" + Written(parts, i + 1)) && pos == 1 + |Written(parts, i + 1)|
    {
      WrittenGrows(parts, i + 1, |parts|);
      WrittenNext(parts, i);
      pos := WriteItem(h, start, quoted[i], strs[i], i < |strs| - 1, before, "[" + Written(parts, i));
    }

    method WriteItem(h: Word, start: nat, quoted: bool, str: Word, more: bool, ghost before: Blocks, ghost done: string)
      returns (pos: nat)
      requires Valid() && Buffer(h, before, done) && start == |done| && TextAt(before, at(str)) && at(str) != at(h)
      requires start + |Quote(quoted, CharsAt(before, at(str)))| + (if more then 2 else 0) <= |CharsAt(before, at(h))|
      modifies arenas[cur]
      ensures SameTop()
      ensures Valid() && Buffer(h, before, done + Quote(quoted, CharsAt(before, at(str))) + if more then ", " else "")
      ensures pos == start + |Quote(quoted, CharsAt(before, at(str)))| + (if more then 2 else 0)
    {
      pos := WriteQuoted(h, start, quoted, str, before, done);
      if more {
        pos := Put(h, pos, ", ", before, done + Quote(quoted, CharsAt(before, at(str))));
      }
    }

    method WriteQuoted(h: Word, start: nat, quoted: bool, str: Word, ghost before: Blocks, ghost done: string)
      returns (pos: nat)
      requires Valid() && Buffer(h, before, done) && start == |done| && TextAt(before, at(str)) && at(str) != at(h)
      requires start + |Quote(quoted, CharsAt(before, at(str)))| <= |CharsAt(before, at(h))|
      modifies arenas[cur]
      ensures SameTop()
      ensures Valid() && Buffer(h, before, done + Quote(quoted, CharsAt(before, at(str))))
      ensures pos == start + |Quote(quoted, CharsAt(before, at(str)))|
    {
      var text := ReadString(str);
      ghost var chars := CharsAt(before, at(str));
      assert text == chars;
      pos := start;
      if quoted {
        pos := Put(h, pos, "'", before, done);
        pos := Put(h, pos, text, before, done + "'");
        pos := Put(h, pos, "'", before, done + "'" + chars);
        QuotesAround(done, chars);
      } else {
        pos := Put(h, pos, text, before, done);
      }
    }

    // ---- Other string operations ----

    method StrConcat(h1: Word, h2: Word) returns (r: Option<Word>)
      requires Valid() && TextAt(Snap(), at(h1)) && TextAt(Snap(), at(h2)) && !arenas[cur].Full()
      modifies arenas[cur]
      ensures Valid() && Keeps(old(Snap()), Snap())
      ensures r.Some? <==>
                !Failed(Allocated(old(arenas[cur].top), Room(|old(CharsAt(Snap(), at(h1)) + CharsAt(Snap(), at(h2)))|)))
      ensures r.Some? ==> tag(r.value) == D.STR && TextAt(Snap(), at(r.value))
                          && CharsAt(Snap(), at(r.value)) == old(CharsAt(Snap(), at(h1)) + CharsAt(Snap(), at(h2)))
      ensures r.Some? ==> TookString(|old(CharsAt(Snap(), at(h1)) + CharsAt(Snap(), at(h2)))|)
      ensures r.Some? ==> IsTerminated(arenas[cur], at(r.value).off)
    {
      ghost var start := Snap();
      var s := ReadString(h1);
      var t := ReadString(h2);
      r := NewString(None, |s| + |t|);
      if r.Some? {
        ghost var before := Snap();
        CopyBoth(r.value, s, t);
        Finish(r.value, start, before, s + t);
      }
    }

    method CopyBoth(h: Word, s: string, t: string)
      requires Valid() && TextAt(Snap(), at(h)) && at(h).id == cur && AreBytes(s) && AreBytes(t)
      requires |CharsAt(Snap(), at(h))| == |s| + |t|
      modifies arenas[cur]
      ensures SameTop()
      ensures Valid() && Buffer(h, old(Snap()), s + t)
    {
      ghost var before := Snap();
      var pos := Put(h, 0, s, before, "");
      pos := Put(h, pos, t, before, s);
    }

    // The count is taken modulo 2^32. The length is a size_t, which the text of a string in an
    // arena times 2^32 cannot overflow.
    method StrMult(h: Word, times: int) returns (r: Option<Word>)
      requires Valid() && TextAt(Snap(), at(h)) && !arenas[cur].Full()
      modifies arenas[cur]
      ensures Valid() && Keeps(old(Snap()), Snap())
      ensures r.Some? <==>
                !Failed(Allocated(old(arenas[cur].top), Room(|Repeat(old(CharsAt(Snap(), at(h))), times % TWO32)|)))
      ensures r.Some? ==> tag(r.value) == D.STR && TextAt(Snap(), at(r.value))
                          && CharsAt(Snap(), at(r.value)) == Repeat(old(CharsAt(Snap(), at(h))), times % TWO32)
      ensures r.Some? ==> TookString(|Repeat(old(CharsAt(Snap(), at(h))), times % TWO32)|)
      ensures r.Some? ==> IsTerminated(arenas[cur], at(r.value).off)
    {
      ghost var start := Snap();
      var s := ReadString(h);
      var n := times % TWO32;
      RepeatFits(s, n, n);
      r := NewString(None, n * |s|);
      if r.Some? {
        ghost var before := Snap();
        CopyTimes(r.value, s, n);
        Finish(r.value, start, before, Repeat(s, n));
      }
    }

    method CopyTimes(h: Word, s: string, n: nat)
      requires Valid() && TextAt(Snap(), at(h)) && at(h).id == cur && AreBytes(s)
      requires |CharsAt(Snap(), at(h))| == |Repeat(s, n)|
      modifies arenas[cur]
      ensures SameTop()
      ensures Valid() && Buffer(h, old(Snap()), Repeat(s, n))
    {
      ghost var before := Snap();
      for i := 0 to n
        invariant Valid() && Buffer(h, before, Repeat(s, i)) && SameTop()
      {
        RepeatFits(s, i, n);
        var pos := Put(h, i * |s|, s, before, Repeat(s, i));
      }
    }

    // One string for every byte, in a new arena.
    method InitCharTable() returns (table: seq<Word>)
      requires Valid() && arenas[cur].top == 0
      modifies arenas[cur]
      ensures Valid() && Keeps(old(Snap()), Snap()) && IsCharTable(Snap(), at, table, 256)
    {
      table := [];
      ghost var before := Snap();
      for c := 0 to 256
        invariant Valid() && Keeps(before, Snap()) && IsCharTable(Snap(), at, table, c)
        invariant arenas[cur].top == c * Room(1)
      {
        ghost var mid := Snap();
        var h := NewString(Some([c as char]), 1);
        KeepsTwice(before, mid, Snap());
        CharTableStays(mid, Snap(), at, table, c);
        table := table + [h.value];
      }
    }

    // The string of one byte of a string, from the table.
    method StrIndex(table: seq<Word>, h: Word, i: int) returns (r: Option<Word>)
      requires Valid() && TextAt(Snap(), at(h)) && IsCharTable(Snap(), at, table, 256)
      ensures var s := CharsAt(Snap(), at(h));
              && (r.Some? <==> -|s| <= i < |s|)
              && (r.Some? ==>
                    && TextAt(Snap(), at(r.value))
                    && CharsAt(Snap(), at(r.value)) == [s[if i < 0 then i + |s| else i]])
    {
      var s := ReadString(h);
      if i < -|s| || i >= |s| {
        return None;
      }
      var idx := if i < 0 then i + |s| else i;
      r := Some(table[s[idx] as int]);
    }
  }

  // The first n entries of the table of one-character strings.
  ghost predicate IsCharTable(s: Blocks, at: Word -> Ref, table: seq<Word>, n: int) {
    && |table| == n <= 256
    && forall c {:trigger table[c]} :: 0 <= c < n ==> TextAt(s, at(table[c])) && CharsAt(s, at(table[c])) == [c as char]
  }

  // Every operation that keeps the blocks keeps the table.
  lemma CharTableStays(s: Blocks, s': Blocks, at: Word -> Ref, table: seq<Word>, n: int)
    requires IsCharTable(s, at, table, n) && Keeps(s, s')
    ensures IsCharTable(s', at, table, n)
  {
    forall c | 0 <= c < n
      ensures TextAt(s', at(table[c])) && CharsAt(s', at(table[c])) == [c as char]
    {
      assert KeepsAt(s, s', at(table[c]));
    }
  }

  // str() of a list with the runtime's own reading of ducks, for lists and strings in any arenas:
  // the nested text, or a panic exactly when the current arena cannot hold all the strings that
  // rendering makes.
  method Str(arenas: seq<Arena>, cur: nat, l: Word, ghost w: World, ghost rank: Word -> nat, g: Word -> string)
    returns (r: Option<string>)
    requires cur < |arenas| <= 0x1_0000 && (forall i, j :: 0 <= i < j < |arenas| ==> arenas[i] != arenas[j])
    requires forall k :: 0 <= k < |arenas| ==> arenas[k].Valid()
    requires w.tag == TagOf && w.g == g && Nested(w, rank) && l in w.lists && TagOf(l) == D.LIST
    requires Shows(seq(|arenas|, k requires 0 <= k < |arenas| reads arenas => arenas[k].blocks), RefOf, w)
    requires TopAfter(w, rank, l, arenas[cur].top) != WRAPPED
    modifies arenas[cur]
    ensures r == if old(arenas[cur].top) + Need(w, rank, l) <= TWO32 then Some(Text(w, rank, l)) else None
  {
    DucksReadStrings();
    var runtime := new Runtime(arenas, cur, TagOf, RefOf, g);
    r := runtime.ListText(l, w, rank);
  }
}

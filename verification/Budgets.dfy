/**
 Which programs run to their end. Every list that is made is charged 264 words of its arena, and
 every element that is put into one 34 words; a program whose charges stay below 2^32 words in each
 arena, and which does nothing that is excluded, ends well. The charges are computed on plain
 sequences: capacities and moves do not show in them.
 */
module Budgets {
  import opened Bits
  import opened Memory
  import opened Programs
  import opened Sequences
  import opened Wrappers

  // ---- Charges ----

  function ForList(len: nat): int {
    264 + 34 * len
  }

  // What the arenas are charged with after an operation.
  function Charged(s: State, loads: seq<int>, op: Op): (r: seq<int>)
    requires Defined(s, op) && |loads| == |s.arenas|
    requires forall o :: 0 <= o < |s.objs| && s.objs[o].Held? ==> s.objs[o].arena < |loads|
  {
    match op
    case NewArena => loads + [0]
    case ClearArena(a) => loads[a := 0]
    case Create(a, values) => loads[a := loads[a] + ForList(|values|)]
    case Concat(a, v, u) => loads[a := loads[a] + ForList(|Items(s, v)| + |Items(s, u)|)]
    case Times(a, v, n) => loads[a := loads[a] + ForList(|Items(s, v)| * if n < 0 then 0 else n)]
    case Append(v, _) => OneMore(s, loads, v)
    case Insert(v, _, _) => OneMore(s, loads, v)
    case _ => loads
  }

  function OneMore(s: State, loads: seq<int>, v: nat): seq<int>
    requires HasList(s, v) && s.objs[s.vars[v]].arena < |loads|
  {
    var a := s.objs[s.vars[v]].arena;
    loads[a := loads[a] + 34]
  }

  // The program means something on sequences, repeats by counts that are kept, appends to and
  // inserts into lists with one name only, has arena slots for its arenas, and stays within 2^32.
  predicate Fits(s: State, loads: seq<int>, slots: int, ops: seq<Op>)
    requires |loads| == |s.arenas|
    requires forall o :: 0 <= o < |s.objs| && s.objs[o].Held? ==> s.objs[o].arena < |loads|
    decreases |ops|
  {
    ops == [] ||
    (&& Harmless(s, ops[0]) && (ops[0].NewArena? ==> slots > 0)
     && (forall a :: 0 <= a < |Charged(s, loads, ops[0])| ==> Charged(s, loads, ops[0])[a] < TWO32)
     && Fits(Apply(s, ops[0]).value, Charged(s, loads, ops[0]), SlotsAfter(slots, ops[0]), ops[1..]))
  }

  predicate Harmless(s: State, op: Op) {
    && Defined(s, op) && Apply(s, op).Some?
    && (op.Times? ==> CountKept(Items(s, op.list), op.times))
    && (op.Append? || op.Insert? ==> !Shared(s, op.list))
  }

  function SlotsAfter(slots: int, op: Op): int {
    if op.NewArena? then slots - 1 else if op.FreeArena? then slots + 1 else slots
  }

  // ---- What the lists have paid in advance ----

  // A list that is more than half full has saved towards the block it moves to when it is full.
  function Saved(len: nat, cap: int): int {
    if 2 * len > cap then 17 * (2 * len - cap) else 0
  }

  function SavedIn(x: Obj, cap: int, a: nat): int {
    if x.Held? && x.arena == a then Saved(|x.items|, cap) else 0
  }

  function Savings(objs: seq<Obj>, caps: seq<int>, a: nat): int
    requires |objs| == |caps|
    decreases |objs|
  {
    if objs == [] then 0
    else
      var n := |objs| - 1;
      Savings(objs[..n], caps[..n], a) + SavedIn(objs[n], caps[n], a)
  }

  lemma SavingsAdd(objs: seq<Obj>, caps: seq<int>, a: nat, x: Obj, cap: int)
    requires |objs| == |caps|
    ensures Savings(objs + [x], caps + [cap], a) == Savings(objs, caps, a) + SavedIn(x, cap, a)
  {
    assert (objs + [x])[..|objs|] == objs && (caps + [cap])[..|caps|] == caps;
  }

  lemma {:induction false} SavingsSet(objs: seq<Obj>, caps: seq<int>, a: nat, o: nat, x: Obj, cap: int)
    requires |objs| == |caps| && o < |objs|
    ensures Savings(objs[o := x], caps[o := cap], a) ==
            Savings(objs, caps, a) - SavedIn(objs[o], caps[o], a) + SavedIn(x, cap, a)
    decreases |objs|
  {
    var n := |objs| - 1;
    if o < n {
      SavingsSet(objs[..n], caps[..n], a, o, x, cap);
      assert objs[o := x][..n] == objs[..n][o := x] && caps[o := cap][..n] == caps[..n][o := cap];
    } else {
      assert objs[o := x][..n] == objs[..n] && caps[o := cap][..n] == caps[..n];
    }
  }

  lemma {:induction false} SavingsEmptied(objs: seq<Obj>, caps: seq<int>, a: nat, b: nat)
    requires |objs| == |caps|
    ensures Savings(Emptied(objs, b), caps, a) == if a == b then 0 else Savings(objs, caps, a)
    decreases |objs|
  {
    if objs != [] {
      var n := |objs| - 1;
      SavingsEmptied(objs[..n], caps[..n], a, b);
      assert Emptied(objs, b)[..n] == Emptied(objs[..n], b);
    }
  }

  // ---- The invariant ----

  predicate Roomy(x: Obj, cap: int) {
    x.Held? ==> DEF_SIZE <= cap && |x.items| <= cap
  }

  // What an arena was charged covers the words it handed out and what its lists have saved.
  ghost predicate Covered(s: State, z: Sizes, loads: seq<int>, a: nat)
    requires Matches(s, z) && |loads| == |s.arenas|
  {
    HasArena(s, a) ==> 0 <= z.tops[a] && z.tops[a] + Savings(s.objs, z.caps, a) <= loads[a] < TWO32
  }

  ghost predicate Paid(s: State, z: Sizes, loads: seq<int>) {
    && Matches(s, z) && |loads| == |s.arenas|
    && (forall a: nat {:trigger Covered(s, z, loads, a)} :: Covered(s, z, loads, a))
    && (forall o {:trigger Roomy(s.objs[o], z.caps[o])} :: 0 <= o < |s.objs| ==> Roomy(s.objs[o], z.caps[o]))
  }

  // A new list is paid for, with what it saves.
  lemma NewListPaid(len: nat)
    requires len <= MAX_CAP
    ensures var c := CapFor(len, DEF_SIZE);
            DEF_SIZE <= c && len <= c && BlockSize(c) + Saved(len, c) <= ForList(len)
  {
    assert IsCap(DEF_SIZE);
    CapForIsLeast(len, DEF_SIZE);
  }

  lemma {:induction false} SavingsPositive(objs: seq<Obj>, caps: seq<int>, a: nat)
    requires |objs| == |caps|
    ensures Savings(objs, caps, a) >= 0
    decreases |objs|
  {
    if objs != [] {
      SavingsPositive(objs[..|objs| - 1], caps[..|objs| - 1], a);
    }
  }

  // A list of this length in arena a, charged for, is made.
  lemma HousedPaid(s: State, z: Sizes, loads: seq<int>, a: nat, xs: seq<Word>)
    requires Paid(s, z, loads) && HasArena(s, a) && loads[a] + ForList(|xs|) < TWO32
    ensures z.tops[a] < TWO32 && !NoSpace(z.tops[a], |xs|)
    ensures Paid(Added(s, a, xs), Housed(z, a, |xs|), loads[a := loads[a] + ForList(|xs|)])
  {
    var c := CapFor(|xs|, DEF_SIZE);
    var s', z', loads' := Added(s, a, xs), Housed(z, a, |xs|), loads[a := loads[a] + ForList(|xs|)];
    assert Covered(s, z, loads, a);
    SavingsPositive(s.objs, z.caps, a);
    NewListPaid(|xs|);
    forall b: nat
      ensures Covered(s', z', loads', b)
    {
      assert Covered(s, z, loads, b);
      SavingsAdd(s.objs, z.caps, b, Held(a, xs), c);
    }
    forall o | 0 <= o < |s'.objs|
      ensures Roomy(s'.objs[o], z'.caps[o])
    {
      if o < |s.objs| {
        assert Roomy(s.objs[o], z.caps[o]);
      }
    }
  }

  // A list gets other elements, and at most one more.
  lemma ChangedPaid(s: State, z: Sizes, loads: seq<int>, v: nat, xs: seq<Word>, cap: int, top: int, load: int)
    requires Paid(s, z, loads) && HasList(s, v) && DEF_SIZE <= cap && |xs| <= cap && 0 <= top
    requires var o, a := s.vars[v], s.objs[s.vars[v]].arena;
             && top + Saved(|xs|, cap) - (z.tops[a] + Saved(|s.objs[o].items|, z.caps[o])) <= load - loads[a]
             && load < TWO32
    ensures var o, a := s.vars[v], s.objs[s.vars[v]].arena;
            Paid(Changed(s, v, xs), z.(tops := z.tops[a := top], caps := z.caps[o := cap]), loads[a := load])
  {
    var o, a := s.vars[v], s.objs[s.vars[v]].arena;
    var s', z', loads' := Changed(s, v, xs), z.(tops := z.tops[a := top], caps := z.caps[o := cap]), loads[a := load];
    forall b: nat
      ensures Covered(s', z', loads', b)
    {
      assert Covered(s, z, loads, b);
      SavingsSet(s.objs, z.caps, b, o, Held(a, xs), cap);
    }
    forall p | 0 <= p < |s'.objs|
      ensures Roomy(s'.objs[p], z'.caps[p])
    {
      assert Roomy(s.objs[p], z.caps[p]);
    }
  }

  // One more element, with the move that it makes necessary when the list is full.
  lemma WidenedPaid(s: State, z: Sizes, loads: seq<int>, v: nat, xs: seq<Word>)
    requires Paid(s, z, loads) && HasList(s, v) && |xs| == |Items(s, v)| + 1
    requires loads[s.objs[s.vars[v]].arena] + 34 < TWO32
    ensures !Crowded(s, z, v) && z.tops[s.objs[s.vars[v]].arena] < TWO32
    ensures Paid(Changed(s, v, xs), Regrown(s, z, v), OneMore(s, loads, v))
  {
    var o, a := s.vars[v], s.objs[s.vars[v]].arena;
    assert Roomy(s.objs[o], z.caps[o]) && Covered(s, z, loads, a);
    Part(s.objs, z.caps, a, o);
    if IsFull(s, z, v) {
      ChangedPaid(s, z, loads, v, xs, 2 * z.caps[o], z.tops[a] + BlockSize(2 * z.caps[o]), loads[a] + 34);
    } else {
      ChangedPaid(s, z, loads, v, xs, z.caps[o], z.tops[a], loads[a] + 34);
      assert z.(tops := z.tops[a := z.tops[a]], caps := z.caps[o := z.caps[o]]) == z;
    }
  }

  lemma {:induction false} Part(objs: seq<Obj>, caps: seq<int>, a: nat, o: nat)
    requires |objs| == |caps| && o < |objs|
    ensures SavedIn(objs[o], caps[o], a) <= Savings(objs, caps, a)
    decreases |objs|
  {
    var n := |objs| - 1;
    SavingsPositive(objs[..n], caps[..n], a);
    if o < n {
      Part(objs[..n], caps[..n], a, o);
    }
  }

  // A list gets other elements, and no more of them.
  lemma ReplacedPaid(s: State, z: Sizes, loads: seq<int>, v: nat, xs: seq<Word>)
    requires Paid(s, z, loads) && HasList(s, v) && |xs| <= |Items(s, v)|
    ensures Paid(Changed(s, v, xs), z, loads)
  {
    var o, a := s.vars[v], s.objs[s.vars[v]].arena;
    assert Roomy(s.objs[o], z.caps[o]) && Covered(s, z, loads, a);
    ChangedPaid(s, z, loads, v, xs, z.caps[o], z.tops[a], loads[a]);
    assert z.(tops := z.tops[a := z.tops[a]], caps := z.caps[o := z.caps[o]]) == z;
    assert loads[a := loads[a]] == loads;
  }

  // The lists of an arena go, and with them what they have saved.
  lemma EmptiedPaid(s: State, z: Sizes, loads: seq<int>, a: nat)
    requires Paid(s, z, loads) && HasArena(s, a)
    ensures Paid(s.(objs := Emptied(s.objs, a)), z.(tops := z.tops[a := 0]), loads[a := 0])
    ensures Paid(s.(arenas := s.arenas[a := false], objs := Emptied(s.objs, a)), z.(free := z.free + 1), loads)
  {
    var s1, z1, loads1 := s.(objs := Emptied(s.objs, a)), z.(tops := z.tops[a := 0]), loads[a := 0];
    var s2, z2 := s.(arenas := s.arenas[a := false], objs := Emptied(s.objs, a)), z.(free := z.free + 1);
    forall b: nat
      ensures Covered(s1, z1, loads1, b) && Covered(s2, z2, loads, b)
    {
      assert Covered(s, z, loads, b);
      SavingsEmptied(s.objs, z.caps, b, a);
    }
    forall o | 0 <= o < |s.objs|
      ensures Roomy(Emptied(s.objs, a)[o], z.caps[o])
    {
      assert Roomy(s.objs[o], z.caps[o]);
    }
  }

  // ---- Runs ----

  lemma StepPaid(s: State, z: Sizes, loads: seq<int>, op: Op)
    requires Paid(s, z, loads) && Harmless(s, op) && (op.NewArena? ==> z.free > 0)
    requires forall a :: 0 <= a < |Charged(s, loads, op)| ==> Charged(s, loads, op)[a] < TWO32
    ensures Fate(s, z, op) == Done && Paid(Apply(s, op).value, Resized(s, z, op), Charged(s, loads, op))
  {
    match op
    case NewArena => ArenaPaid(s, z, loads);
    case FreeArena(a) => EmptiedPaid(s, z, loads, a);
    case ClearArena(a) => EmptiedPaid(s, z, loads, a);
    case Create(a, values) =>
      assert Charged(s, loads, op)[a] < TWO32;
      HousedPaid(s, z, loads, a, values);
    case Concat(a, v, u) =>
      assert Charged(s, loads, op)[a] < TWO32;
      HousedPaid(s, z, loads, a, Items(s, v) + Items(s, u));
    case Times(a, v, n) =>
      assert Charged(s, loads, op)[a] < TWO32;
      TimesPaid(s, z, loads, a, v, n);
    case _ => StepOnPaid(s, z, loads, op);
  }

  lemma StepOnPaid(s: State, z: Sizes, loads: seq<int>, op: Op)
    requires Paid(s, z, loads) && Harmless(s, op) && OnOneList(op)
    requires forall a :: 0 <= a < |Charged(s, loads, op)| ==> Charged(s, loads, op)[a] < TWO32
    ensures Fate(s, z, op) == Done && Paid(Apply(s, op).value, Resized(s, z, op), Charged(s, loads, op))
  {
    if op.Append? || op.Insert? {
      GrowPaid(s, z, loads, op);
    } else {
      assert Fate(s, z, op) == Done && Resized(s, z, op) == z && Charged(s, loads, op) == loads;
      KeepPaid(s, z, loads, op);
    }
  }

  lemma GrowPaid(s: State, z: Sizes, loads: seq<int>, op: Op)
    requires Paid(s, z, loads) && Harmless(s, op) && (op.Append? || op.Insert?)
    requires forall a :: 0 <= a < |Charged(s, loads, op)| ==> Charged(s, loads, op)[a] < TWO32
    ensures Fate(s, z, op) == Done && Paid(Apply(s, op).value, Resized(s, z, op), Charged(s, loads, op))
  {
    var xs, v := Items(s, op.list), op.list;
    var ys := if op.Append? then xs + [op.value] else Inserted(xs, op.i, op.value);
    assert Apply(s, op).value == Changed(s, v, ys) && Charged(s, loads, op) == OneMore(s, loads, v);
    assert OneMore(s, loads, v)[s.objs[s.vars[v]].arena] < TWO32;
    WidenedPaid(s, z, loads, v, ys);
  }

  lemma KeepPaid(s: State, z: Sizes, loads: seq<int>, op: Op)
    requires Paid(s, z, loads) && Harmless(s, op) && OnOneList(op) && !op.Append? && !op.Insert?
    ensures Paid(Apply(s, op).value, z, loads)
  {
    var xs, v, s' := Items(s, op.list), op.list, Apply(s, op).value;
    StepMatches(s, z, op);
    if op.Alias? || op.Fetch? || op.Find? {
      SameObjectsPaid(s, z, loads, s');
    } else {
      var ys := s'.objs[s.vars[v]].items;
      assert |ys| <= |xs| && s'.objs == Changed(s, v, ys).objs && s'.arenas == s.arenas;
      ReplacedPaid(s, z, loads, v, ys);
      SameObjectsPaid(Changed(s, v, ys), z, loads, s');
    }
  }

  lemma SameObjectsPaid(s: State, z: Sizes, loads: seq<int>, s': State)
    requires Paid(s, z, loads) && s'.arenas == s.arenas && s'.objs == s.objs && Matches(s', z)
    ensures Paid(s', z, loads)
  {
    forall a: nat
      ensures Covered(s', z, loads, a)
    {
      assert Covered(s, z, loads, a);
    }
  }

  lemma ArenaPaid(s: State, z: Sizes, loads: seq<int>)
    requires Paid(s, z, loads)
    ensures Paid(s.(arenas := s.arenas + [true]), z.(tops := z.tops + [0], free := z.free - 1), loads + [0])
  {
    var s', z', loads' := s.(arenas := s.arenas + [true]), z.(tops := z.tops + [0], free := z.free - 1), loads + [0];
    forall a: nat
      ensures Covered(s', z', loads', a)
    {
      assert Covered(s, z, loads, a);
      if a == |loads| {
        NothingIn(s, z.caps, a);
      }
    }
    forall o | 0 <= o < |s.objs|
      ensures Roomy(s.objs[o], z.caps[o])
    {
    }
  }

  lemma NothingIn(s: State, caps: seq<int>, a: nat)
    requires |s.objs| == |caps| && forall o :: 0 <= o < |s.objs| && s.objs[o].Held? ==> s.objs[o].arena != a
    ensures Savings(s.objs, caps, a) == 0
  {
    assert Emptied(s.objs, a) == s.objs;
    SavingsEmptied(s.objs, caps, a, a);
  }

  lemma TimesPaid(s: State, z: Sizes, loads: seq<int>, a: nat, v: nat, n: int)
    requires Paid(s, z, loads) && HasArena(s, a) && HasList(s, v) && CountKept(Items(s, v), n)
    requires loads[a] + ForList(|Items(s, v)| * if n < 0 then 0 else n) < TWO32
    ensures var op := Times(a, v, n);
            Fate(s, z, op) == Done && Paid(Apply(s, op).value, Resized(s, z, op), Charged(s, loads, op))
  {
    assert loads[a] >= 0 by {
      assert Covered(s, z, loads, a);
      SavingsPositive(s.objs, z.caps, a);
    }
    KeptRepeat(Items(s, v), n);
    HousedPaid(s, z, loads, a, PythonRepeat(Items(s, v), n));
  }

  lemma KeptRepeat(xs: seq<Word>, n: int)
    requires CountKept(xs, n) && |xs| * (if n < 0 then 0 else n) < TWO32
    ensures |PythonRepeat(xs, n)| == MultLength(|xs|, n) == |xs| * (if n < 0 then 0 else n) && !Spoiled(xs, n)
  {
    RepeatLength(xs, if n < 0 then 0 else n);
    KeptLength(|xs|, n);
  }

  // A count that is kept, with a product that does.
  lemma KeptLength(len: nat, n: int)
    requires len == 0 || 0 <= n < TWO32 || (n < 0 && n % TWO32 == 0)
    requires len * (if n < 0 then 0 else n) < TWO32
    ensures !MultWraps(len, n) && MultLength(len, n) == len * if n < 0 then 0 else n
  {
  }

  // A program that fits is run to its end.
  lemma {:induction false} Finishes(s: State, z: Sizes, loads: seq<int>, ops: seq<Op>)
    requires Paid(s, z, loads) && Fits(s, loads, z.free, ops)
    ensures Ends(s, z, ops).outcome == Done
    decreases |ops|
  {
    if ops != [] {
      StepPaid(s, z, loads, ops[0]);
      Finishes(Apply(s, ops[0]).value, Resized(s, z, ops[0]), Charged(s, loads, ops[0]), ops[1..]);
    }
  }

  // And so is a program that fits on its own, from the start.
  lemma FinishesFromStart(slots: int, ops: seq<Op>)
    requires Fits(EMPTY, [], slots, ops)
    ensures Ends(EMPTY, Sizes([], [], slots), ops).outcome == Done
    ensures RunOn(EMPTY, ops).Some?
  {
    var z := Sizes([], [], slots);
    assert Paid(EMPTY, z, []);
    Finishes(EMPTY, z, [], ops);
    EndsIsRunOn(EMPTY, z, ops);
    assert ops[..|ops|] == ops;
  }
}

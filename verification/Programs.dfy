/**
 Programs that make, clear and free arenas and work on lists in them, and what they do to plain
 sequences. A variable names a list object, and two variables can name the same one. Beside the
 sequences, the words handed out and the capacities are counted: they decide when a program on
 the arenas stops before it is through.
 */
module Programs {
  import opened Bits
  import opened Memory
  import opened Sequences
  import opened Wrappers

  datatype Op =
    | NewArena
    | FreeArena(arena: nat)
    | ClearArena(arena: nat)
    | Create(arena: nat, values: seq<Word>)
    | Concat(arena: nat, list: nat, other: nat)
    | Times(arena: nat, list: nat, times: int)
    | Alias(list: nat)
    | Append(list: nat, value: Word)
    | Insert(list: nat, i: int, value: Word)
    | Assign(list: nat, i: int, value: Word)
    | Fetch(list: nat, i: int)
    | Find(list: nat, value: Word, start: int, end: int)
    | Pop(list: nat)
    | Remove(list: nat, value: Word)
    | Reverse(list: nat)
    | Clear(list: nat)

  // ---- On sequences ----

  // A list is gone when its arena is cleared or freed.
  datatype Obj = Gone | Held(arena: nat, items: seq<Word>)

  // Which arenas exist, the list objects, the one each variable names, and what the program has
  // read from its lists.
  datatype State = State(arenas: seq<bool>, objs: seq<Obj>, vars: seq<nat>, seen: seq<int>)

  const EMPTY: State := State([], [], [], [])

  predicate HasArena(s: State, a: nat) {
    a < |s.arenas| && s.arenas[a]
  }

  predicate HasList(s: State, v: nat) {
    v < |s.vars| && s.vars[v] < |s.objs| && s.objs[s.vars[v]].Held?
  }

  function Items(s: State, v: nat): seq<Word>
    requires HasList(s, v)
  {
    s.objs[s.vars[v]].items
  }

  // Another variable names the same list.
  predicate Shared(s: State, v: nat)
    requires v < |s.vars|
  {
    exists u :: 0 <= u < |s.vars| && u != v && s.vars[u] == s.vars[v]
  }

  predicate OnOneList(op: Op) {
    !(op.NewArena? || op.FreeArena? || op.ClearArena? || op.Create? || op.Concat? || op.Times?)
  }

  // The program names only what it has.
  predicate Defined(s: State, op: Op) {
    match op
    case NewArena => true
    case FreeArena(a) => HasArena(s, a)
    case ClearArena(a) => HasArena(s, a)
    case Create(a, _) => HasArena(s, a)
    case Concat(a, v, u) => HasArena(s, a) && HasList(s, v) && HasList(s, u)
    case Times(a, v, _) => HasArena(s, a) && HasList(s, v)
    case _ => HasList(s, op.list)
  }

  // None is an error the program raises.
  function Apply(s: State, op: Op): Option<State>
    requires Defined(s, op)
  {
    match op
    case NewArena => Some(s.(arenas := s.arenas + [true]))
    case FreeArena(a) => Some(s.(arenas := s.arenas[a := false], objs := Emptied(s.objs, a)))
    case ClearArena(a) => Some(s.(objs := Emptied(s.objs, a)))
    case Create(a, values) => Some(Added(s, a, values))
    case Concat(a, v, u) => Some(Added(s, a, Items(s, v) + Items(s, u)))
    case Times(a, v, n) => Some(Added(s, a, PythonRepeat(Items(s, v), n)))
    case _ => ApplyTo(s, op.list, op)
  }

  // The operations on the list that v names.
  function ApplyTo(s: State, v: nat, op: Op): Option<State>
    requires HasList(s, v)
  {
    var xs := Items(s, v);
    match op
    case Alias(_) => Some(s.(vars := s.vars + [s.vars[v]]))
    case Append(_, x) => Some(Changed(s, v, xs + [x]))
    case Insert(_, i, x) => if InRange(i, |xs|) then Some(Changed(s, v, Inserted(xs, i, x))) else None
    case Assign(_, i, x) => if InRange(i, |xs|) then Some(Changed(s, v, Replaced(xs, i, x))) else None
    case Fetch(_, i) => if InRange(i, |xs|) then Some(Seen(s, xs[if i < 0 then i + |xs| else i])) else None
    case Find(_, x, start, end) =>
      (match Located(xs, x, start, end) case None => None case Some(k) => Some(Seen(s, k)))
    case Pop(_) => (match Last(xs) case None => None case Some(x) => Some(Seen(Changed(s, v, Popped(xs)), x)))
    case Remove(_, x) => if x in xs then Some(Changed(s, v, Removed(xs, x))) else None
    case Reverse(_) => Some(Changed(s, v, Reversed(xs)))
    case Clear(_) => Some(Changed(s, v, []))
    case _ => None
  }

  predicate InRange(i: int, len: int) {
    -len <= i < len
  }

  function Added(s: State, a: nat, xs: seq<Word>): State {
    s.(objs := s.objs + [Held(a, xs)], vars := s.vars + [|s.objs|])
  }

  function Changed(s: State, v: nat, xs: seq<Word>): State
    requires HasList(s, v)
  {
    s.(objs := s.objs[s.vars[v] := Held(s.objs[s.vars[v]].arena, xs)])
  }

  function Seen(s: State, x: int): State {
    s.(seen := s.seen + [x])
  }

  function Emptied(objs: seq<Obj>, a: nat): (r: seq<Obj>)
    ensures |r| == |objs|
  {
    seq(|objs|, o requires 0 <= o < |objs| => if objs[o].Held? && objs[o].arena == a then Gone else objs[o])
  }

  // ---- What the operations do, variable by variable ----

  // Variable u has the same list, or none, as before.
  predicate SameFor(s: State, s': State, u: nat) {
    (HasList(s', u) <==> HasList(s, u)) && (HasList(s, u) ==> Items(s', u) == Items(s, u))
  }

  // One more variable has a list of its own, in this arena.
  ghost predicate Makes(s: State, s': State, a: nat, xs: seq<Word>) {
    && |s'.vars| == |s.vars| + 1 && s'.arenas == s.arenas && s'.seen == s.seen
    && HasList(s', |s.vars|) && Items(s', |s.vars|) == xs && s'.objs[s'.vars[|s.vars|]].arena == a
    && !Shared(s', |s.vars|) && forall u: nat {:trigger SameFor(s, s', u)} :: u < |s.vars| ==> SameFor(s, s', u)
  }

  // The list of v, by whatever name, has these elements, and no other list changes.
  ghost predicate Changes(s: State, s': State, v: nat, xs: seq<Word>)
    requires HasList(s, v)
  {
    && s'.vars == s.vars && s'.arenas == s.arenas
    && forall u: nat {:trigger HasList(s', u)} :: u < |s.vars| ==>
         if s.vars[u] == s.vars[v] then HasList(s', u) && Items(s', u) == xs else SameFor(s, s', u)
  }

  lemma MakingMeans(s: State, a: nat, v: nat, u: nat, values: seq<Word>, n: int)
    requires HasArena(s, a) && HasList(s, v) && HasList(s, u) && forall w :: 0 <= w < |s.vars| ==> s.vars[w] < |s.objs|
    ensures Apply(s, Create(a, values)).Some? && Makes(s, Apply(s, Create(a, values)).value, a, values)
    ensures Apply(s, Concat(a, v, u)).Some? && Makes(s, Apply(s, Concat(a, v, u)).value, a, Items(s, v) + Items(s, u))
    ensures Apply(s, Times(a, v, n)).Some? && Makes(s, Apply(s, Times(a, v, n)).value, a, PythonRepeat(Items(s, v), n))
  {
    AddedMakes(s, a, values);
    AddedMakes(s, a, Items(s, v) + Items(s, u));
    AddedMakes(s, a, PythonRepeat(Items(s, v), n));
  }

  lemma AddedMakes(s: State, a: nat, xs: seq<Word>)
    requires forall w :: 0 <= w < |s.vars| ==> s.vars[w] < |s.objs|
    ensures Makes(s, Added(s, a, xs), a, xs)
  {
  }

  lemma ChangedChanges(s: State, v: nat, xs: seq<Word>, x: int)
    requires HasList(s, v)
    ensures Changes(s, Changed(s, v, xs), v, xs) && Changes(s, Seen(Changed(s, v, xs), x), v, xs)
  {
    var s', s'' := Changed(s, v, xs), Seen(Changed(s, v, xs), x);
    forall u: nat | u < |s.vars|
      ensures if s.vars[u] == s.vars[v] then HasList(s', u) && Items(s', u) == xs else SameFor(s, s', u)
      ensures HasList(s'', u) == HasList(s', u) && (HasList(s', u) ==> Items(s'', u) == Items(s', u))
    {
    }
  }

  // Index i is that of element k, and the operation is an error where there is none.
  lemma IndexingMeans(s: State, v: nat, i: int, k: int, x: Word)
    requires HasList(s, v)
    requires var len := |Items(s, v)|; (0 <= i < len && k == i) || (-len <= i < 0 && k == len + i)
    ensures var (xs, r) := (Items(s, v), Apply(s, Insert(v, i, x)));
            r.Some? && r.value.seen == s.seen && Changes(s, r.value, v, xs[..k] + [x] + xs[k..])
    ensures var (xs, r) := (Items(s, v), Apply(s, Assign(v, i, x)));
            r.Some? && r.value.seen == s.seen && Changes(s, r.value, v, xs[k := x])
    ensures Apply(s, Fetch(v, i)) == Some(s.(seen := s.seen + [Items(s, v)[k]]))
  {
    var xs := Items(s, v);
    ChangedChanges(s, v, xs[..k] + [x] + xs[k..], 0);
    ChangedChanges(s, v, xs[k := x], 0);
  }

  lemma BadIndexRaises(s: State, v: nat, i: int, x: Word)
    requires HasList(s, v) && (i < -|Items(s, v)| || i >= |Items(s, v)|)
    ensures Apply(s, Insert(v, i, x)) == None && Apply(s, Assign(v, i, x)) == None && Apply(s, Fetch(v, i)) == None
  {
  }

  lemma ChangingMeans(s: State, v: nat, x: Word)
    requires HasList(s, v)
    ensures var (xs, r) := (Items(s, v), Apply(s, Append(v, x)));
            r.Some? && r.value.seen == s.seen && Changes(s, r.value, v, xs + [x])
    ensures var (xs, r) := (Items(s, v), Apply(s, Reverse(v)));
            r.Some? && r.value.seen == s.seen && Changes(s, r.value, v, Reversed(xs))
    ensures var r := Apply(s, Clear(v)); r.Some? && r.value.seen == s.seen && Changes(s, r.value, v, [])
  {
    ChangedChanges(s, v, Items(s, v) + [x], 0);
    ChangedChanges(s, v, Reversed(Items(s, v)), 0);
    ChangedChanges(s, v, [], 0);
  }

  lemma RemovingMeans(s: State, v: nat, x: Word)
    requires HasList(s, v)
    ensures var (xs, r) := (Items(s, v), Apply(s, Pop(v)));
            && (r == None <==> xs == [])
            && (xs != [] ==>
                  r.value.seen == s.seen + [xs[|xs| - 1]] && Changes(s, r.value, v, xs[..|xs| - 1]))
    ensures var (xs, r) := (Items(s, v), Apply(s, Remove(v, x)));
            && (r == None <==> x !in xs)
            && (x in xs ==> r.value.seen == s.seen && Changes(s, r.value, v, Removed(xs, x)))
  {
    var xs := Items(s, v);
    if xs != [] {
      ChangedChanges(s, v, xs[..|xs| - 1], xs[|xs| - 1]);
    }
    if x in xs {
      ChangedChanges(s, v, Removed(xs, x), 0);
    }
  }

  // What is found is read, and a second name names the same list.
  lemma FindingMeans(s: State, v: nat, x: Word, start: int, end: int)
    requires HasList(s, v)
    ensures var (k, r) := (Located(Items(s, v), x, start, end), Apply(s, Find(v, x, start, end)));
            if k == None then r == None else r == Some(s.(seen := s.seen + [k.value]))
    ensures Apply(s, Alias(v)) == Some(s.(vars := s.vars + [s.vars[v]]))
  {
  }

  // A new arena is there beside the others; with one that is freed or cleared, exactly its lists are gone.
  lemma ArenasMean(s: State, a: nat, u: nat)
    requires HasArena(s, a) && u < |s.vars|
    ensures Apply(s, NewArena) == Some(s.(arenas := s.arenas + [true]))
    ensures var r := Apply(s, ClearArena(a));
            && r.Some? && r.value.arenas == s.arenas && r.value.vars == s.vars && r.value.seen == s.seen
            && (HasList(r.value, u) <==> HasList(s, u) && s.objs[s.vars[u]].arena != a)
            && (HasList(r.value, u) ==> Items(r.value, u) == Items(s, u))
    ensures Apply(s, FreeArena(a)) ==
            Some(Apply(s, ClearArena(a)).value.(arenas := s.arenas[a := false]))
  {
  }

  // ---- Whole programs on sequences ----

  // What a whole program does to sequences: the last state, or None for an error.
  function RunOn(s: State, ops: seq<Op>): Option<State>
    decreases |ops|
  {
    if ops == [] then Some(s)
    else if !Defined(s, ops[0]) then None
    else match Apply(s, ops[0])
         case None => None
         case Some(s') => RunOn(s', ops[1..])
  }

  // ---- What it takes ----

  // The words handed out by each arena, the capacity of each list, and the free arena slots.
  datatype Sizes = Sizes(tops: seq<int>, caps: seq<int>, free: int)

  // The two belong together.
  predicate Matches(s: State, z: Sizes) {
    && |z.tops| == |s.arenas| && |z.caps| == |s.objs|
    && (forall v :: 0 <= v < |s.vars| ==> s.vars[v] < |s.objs|)
    && (forall o :: 0 <= o < |s.objs| && s.objs[o].Held? ==> HasArena(s, s.objs[o].arena))
  }

  predicate IsFull(s: State, z: Sizes, v: nat)
    requires Matches(s, z) && HasList(s, v)
  {
    |Items(s, v)| == z.caps[s.vars[v]]
  }

  // The arena has no room for a list of this length.
  predicate NoSpace(top: int, len: nat) {
    len > MAX_CAP || top + BlockSize(CapFor(len, DEF_SIZE)) > TWO32
  }

  // List v is full and cannot get twice its capacity.
  predicate Crowded(s: State, z: Sizes, v: nat)
    requires Matches(s, z) && HasList(s, v)
  {
    IsFull(s, z, v) && z.tops[s.objs[s.vars[v]].arena] + BlockSize(2 * z.caps[s.vars[v]]) > TWO32
  }

  // The list would move, in an arena that is full, or away from another variable that names it.
  predicate Stranded(s: State, z: Sizes, v: nat)
    requires Matches(s, z) && HasList(s, v)
  {
    && IsFull(s, z, v)
    && (z.tops[s.objs[s.vars[v]].arena] == TWO32 || (Shared(s, v) && !Crowded(s, z, v)))
  }

  // The count or the length of the repetition is not kept in uint32_t.
  predicate Spoiled(xs: seq<Word>, times: int) {
    MultWraps(|xs|, times) || !CountKept(xs, times)
  }

  // The program uses what it has not, or it meets a fault: an arena that is full is asked for
  // words, a list moves away from one of its variables, or a repetition is not Python's and does
  // not panic.
  predicate Outside(s: State, z: Sizes, op: Op)
    requires Matches(s, z)
  {
    !Defined(s, op) ||
    match op
    case Create(a, values) => |values| >= TWO32 || z.tops[a] == TWO32
    case Append(v, _) => Stranded(s, z, v)
    case Insert(v, i, _) => InRange(i, |Items(s, v)|) && Stranded(s, z, v)
    case Concat(a, _, _) => z.tops[a] == TWO32
    case Times(a, v, n) =>
      z.tops[a] == TWO32 || (!NoSpace(z.tops[a], MultLength(|Items(s, v)|, n)) && Spoiled(Items(s, v), n))
    case _ => false
  }

  // There is no free slot for an arena, or no room for a list.
  predicate NoRoom(s: State, z: Sizes, op: Op)
    requires Matches(s, z) && Defined(s, op)
  {
    match op
    case NewArena => z.free == 0
    case Create(a, values) => NoSpace(z.tops[a], |values|)
    case Append(v, _) => Crowded(s, z, v)
    case Insert(v, i, _) => InRange(i, |Items(s, v)|) && Crowded(s, z, v)
    case Concat(a, v, u) => NoSpace(z.tops[a], |Items(s, v)| + |Items(s, u)|)
    case Times(a, v, n) => NoSpace(z.tops[a], MultLength(|Items(s, v)|, n))
    case _ => false
  }

  // The sizes after an operation that is done.
  function Resized(s: State, z: Sizes, op: Op): Sizes
    requires Matches(s, z) && Defined(s, op)
  {
    match op
    case NewArena => z.(tops := z.tops + [0], free := z.free - 1)
    case FreeArena(a) => z.(free := z.free + 1)
    case ClearArena(a) => z.(tops := z.tops[a := 0])
    case Create(a, values) => Housed(z, a, |values|)
    case Concat(a, v, u) => Housed(z, a, |Items(s, v)| + |Items(s, u)|)
    case Times(a, v, n) => Housed(z, a, MultLength(|Items(s, v)|, n))
    case Append(v, _) => Regrown(s, z, v)
    case Insert(v, _, _) => Regrown(s, z, v)
    case _ => z
  }

  function Housed(z: Sizes, a: nat, len: nat): Sizes
    requires a < |z.tops|
  {
    var c := CapFor(len, DEF_SIZE);
    z.(tops := z.tops[a := z.tops[a] + BlockSize(c)], caps := z.caps + [c])
  }

  function Regrown(s: State, z: Sizes, v: nat): Sizes
    requires Matches(s, z) && HasList(s, v)
  {
    var o, a := s.vars[v], s.objs[s.vars[v]].arena;
    if IsFull(s, z, v) then
      z.(tops := z.tops[a := z.tops[a] + BlockSize(2 * z.caps[o])], caps := z.caps[o := 2 * z.caps[o]])
    else z
  }

  lemma StepMatches(s: State, z: Sizes, op: Op)
    requires Matches(s, z) && Defined(s, op) && Apply(s, op).Some?
    ensures Matches(Apply(s, op).value, Resized(s, z, op))
  {
    match op
    case NewArena =>
    case FreeArena(a) => EmptiedMatches(s, z, a);
    case ClearArena(a) => EmptiedMatches(s, z, a);
    case Create(a, xs) => AddedMatches(s, z, a, xs, |xs|);
    case Concat(a, v, u) => AddedMatches(s, z, a, Items(s, v) + Items(s, u), |Items(s, v)| + |Items(s, u)|);
    case Times(a, v, n) => AddedMatches(s, z, a, PythonRepeat(Items(s, v), n), MultLength(|Items(s, v)|, n));
    case _ => StepOnMatches(s, z, op);
  }

  lemma AddedMatches(s: State, z: Sizes, a: nat, xs: seq<Word>, len: nat)
    requires Matches(s, z) && HasArena(s, a)
    ensures Matches(Added(s, a, xs), Housed(z, a, len))
  {
  }

  lemma EmptiedMatches(s: State, z: Sizes, a: nat)
    requires Matches(s, z) && HasArena(s, a)
    ensures Matches(s.(objs := Emptied(s.objs, a)), z.(tops := z.tops[a := 0]))
    ensures Matches(s.(arenas := s.arenas[a := false], objs := Emptied(s.objs, a)), z.(free := z.free + 1))
  {
  }

  // At most the objects change, each in its arena.
  lemma StepOnMatches(s: State, z: Sizes, op: Op)
    requires Matches(s, z) && OnOneList(op) && Defined(s, op) && Apply(s, op).Some?
    ensures Matches(Apply(s, op).value, Resized(s, z, op))
  {
    var s' := Apply(s, op).value;
    assert s'.arenas == s.arenas && |s'.objs| == |s.objs|;
    assert forall o :: 0 <= o < |s.objs| && s'.objs[o].Held? ==>
                         s.objs[o].Held? && s'.objs[o].arena == s.objs[o].arena;
  }

  // ---- Runs ----

  // An operation is done, or raises the error it raises on sequences, or panics for want of room,
  // or is outside of what the run describes.
  datatype Outcome = Done | Raised | Panicked | Excluded

  // How a run ends, where, and in front of which operation.
  datatype Ending = Ending(outcome: Outcome, state: State, sizes: Sizes, at: nat)

  function Fate(s: State, z: Sizes, op: Op): Outcome
    requires Matches(s, z)
  {
    if Outside(s, z, op) then Excluded
    else if NoRoom(s, z, op) then Panicked
    else if Apply(s, op) == None then Raised
    else Done
  }

  lemma FateOfAppend(s: State, z: Sizes, v: nat, x: Word)
    requires Matches(s, z) && HasList(s, v)
    ensures var op := Append(v, x);
            && Fate(s, z, op) == Growing(s, z, v)
            && Apply(s, op) == Some(Changed(s, v, Items(s, v) + [x])) && Resized(s, z, op) == Regrown(s, z, v)
  {
  }

  lemma FateOfInsert(s: State, z: Sizes, v: nat, i: int, x: Word)
    requires Matches(s, z) && HasList(s, v)
    ensures var op, xs := Insert(v, i, x), Items(s, v);
            && Fate(s, z, op) == (if InRange(i, |xs|) then Growing(s, z, v) else Raised)
            && Apply(s, op) == (if InRange(i, |xs|) then Some(Changed(s, v, Inserted(xs, i, x))) else None)
            && Resized(s, z, op) == Regrown(s, z, v)
  {
  }

  // What becomes of an operation that makes a list of this length in arena a.
  function Making(z: Sizes, a: nat, len: nat): Outcome
    requires a < |z.tops|
  {
    if z.tops[a] == TWO32 then Excluded else if NoSpace(z.tops[a], len) then Panicked else Done
  }

  lemma FateOfCreate(s: State, z: Sizes, a: nat, values: seq<Word>)
    requires Matches(s, z) && HasArena(s, a)
    ensures var op := Create(a, values);
            && Fate(s, z, op) == (if |values| >= TWO32 then Excluded else Making(z, a, |values|))
            && Apply(s, op) == Some(Added(s, a, values)) && Resized(s, z, op) == Housed(z, a, |values|)
  {
  }

  lemma FateOfConcat(s: State, z: Sizes, a: nat, v: nat, u: nat)
    requires Matches(s, z) && HasArena(s, a) && HasList(s, v) && HasList(s, u)
    ensures var op, zs := Concat(a, v, u), Items(s, v) + Items(s, u);
            && Fate(s, z, op) == Making(z, a, |zs|)
            && Apply(s, op) == Some(Added(s, a, zs)) && Resized(s, z, op) == Housed(z, a, |zs|)
  {
  }

  lemma FateOfTimes(s: State, z: Sizes, a: nat, v: nat, n: int)
    requires Matches(s, z) && HasArena(s, a) && HasList(s, v)
    ensures var op, xs, len := Times(a, v, n), Items(s, v), MultLength(|Items(s, v)|, n);
            && Fate(s, z, op) ==
               (if Making(z, a, len) == Done && Spoiled(xs, n) then Excluded else Making(z, a, len))
            && Apply(s, op) == Some(Added(s, a, PythonRepeat(xs, n))) && Resized(s, z, op) == Housed(z, a, len)
  {
  }

  // An operation that leaves one list no longer cannot be stopped.
  lemma FateInPlace(s: State, z: Sizes, op: Op)
    requires Matches(s, z) && OnOneList(op) && !op.Append? && !op.Insert? && Defined(s, op)
    ensures Fate(s, z, op) == (if Apply(s, op) == None then Raised else Done) && Resized(s, z, op) == z
  {
  }

  lemma SameItems(s: State, v: nat)
    requires HasList(s, v)
    ensures Changed(s, v, Items(s, v)) == s
  {
    assert s.objs[s.vars[v] := s.objs[s.vars[v]]] == s.objs;
  }

  // What becomes of an operation that adds one element.
  function Growing(s: State, z: Sizes, v: nat): Outcome
    requires Matches(s, z) && HasList(s, v)
  {
    if Stranded(s, z, v) then Excluded else if Crowded(s, z, v) then Panicked else Done
  }

  function Ends(s: State, z: Sizes, ops: seq<Op>): (e: Ending)
    requires Matches(s, z)
    ensures e.at <= |ops| && (e.outcome == Done <==> e.at == |ops|)
    decreases |ops|
  {
    if ops == [] then Ending(Done, s, z, 0)
    else if Fate(s, z, ops[0]) != Done then Ending(Fate(s, z, ops[0]), s, z, 0)
    else
      StepMatches(s, z, ops[0]);
      var e := Ends(Apply(s, ops[0]).value, Resized(s, z, ops[0]), ops[1..]);
      e.(at := e.at + 1)
  }

  // Up to where it ends, the run is that on sequences, and there the sizes decide its fate.
  lemma {:induction false} EndsIsRunOn(s: State, z: Sizes, ops: seq<Op>)
    requires Matches(s, z)
    ensures var e := Ends(s, z, ops);
            && RunOn(s, ops[..e.at]) == Some(e.state) && Matches(e.state, e.sizes)
            && (e.outcome != Done ==> e.outcome == Fate(e.state, e.sizes, ops[e.at]))
            && (e.outcome == Raised ==> RunOn(s, ops) == None)
    decreases |ops|
  {
    if ops != [] && Fate(s, z, ops[0]) == Done {
      StepMatches(s, z, ops[0]);
      var e := Ends(s, z, ops);
      EndsIsRunOn(Apply(s, ops[0]).value, Resized(s, z, ops[0]), ops[1..]);
      assert ops[..e.at][1..] == ops[1..][..e.at - 1];
    }
  }

  // A run that has come to operation i without an end goes on from there.
  lemma {:induction false} EndsFrom(s: State, z: Sizes, ops: seq<Op>, i: nat)
    requires Matches(s, z) && i < |ops| && Ends(s, z, ops[..i]).outcome == Done
    ensures var e := Ends(s, z, ops[..i]);
            && Matches(e.state, e.sizes)
            && (var o := Fate(e.state, e.sizes, ops[i]);
                if o == Done then
                  && Ends(s, z, ops[..i + 1]).outcome == Done
                  && Ends(s, z, ops[..i + 1]).state == Apply(e.state, ops[i]).value
                  && Ends(s, z, ops[..i + 1]).sizes == Resized(e.state, e.sizes, ops[i])
                else Ends(s, z, ops) == Ending(o, e.state, e.sizes, i))
    decreases i
  {
    if i > 0 {
      var s', z' := Apply(s, ops[0]).value, Resized(s, z, ops[0]);
      assert ops[..i][1..] == ops[1..][..i - 1] && ops[..i + 1][1..] == ops[1..][..i];
      StepMatches(s, z, ops[0]);
      EndsFrom(s', z', ops[1..], i - 1);
    } else {
      assert ops[..1] == [ops[0]];
      if Fate(s, z, ops[0]) == Done {
        StepMatches(s, z, ops[0]);
      }
    }
  }
}

/**
 Programs on lists, run on the registry. A variable holds the handle of its list, and the run is
 compared with the one on sequences.
 */
module Runs {
  import opened Arenas
  import opened Bits
  import opened Budgets
  import opened Memory
  import opened Programs
  import opened Registries
  import opened Sequences
  import opened Wrappers

  // ---- Variables and handles ----

  type Handles = seq<Option<Ref>>

  type Ids = seq<Option<int>>

  // The handle names a list with this capacity and these elements, in the arena of the object.
  ghost predicate Names(ls: map<Ref, ListBlock>, ids: Ids, h: Option<Ref>, x: Obj, cap: int) {
    match x
    case Gone => h == None
    case Held(a, xs) =>
      h.Some? && h.value in ls && ls[h.value] == Block(cap, xs) && a < |ids| && ids[a] == Some(h.value.id)
  }

  ghost predicate Differ<T>(x: Option<T>, y: Option<T>) {
    x.Some? ==> x != y
  }

  // Two variables hold the same handle exactly when they name the same object.
  ghost predicate Agree(h: Option<Ref>, g: Option<Ref>, o: nat, p: nat) {
    h.Some? ==> (h == g <==> o == p)
  }

  ghost predicate Represents(ls: map<Ref, ListBlock>, ids: Ids, handles: Handles, s: State, caps: seq<int>) {
    && |ids| == |s.arenas| && |handles| == |s.vars| && |caps| == |s.objs|
    && (forall a {:trigger ids[a]} :: 0 <= a < |ids| ==> (ids[a].Some? <==> s.arenas[a]))
    && (forall a, b {:trigger Differ(ids[a], ids[b])} :: 0 <= a < b < |ids| ==> Differ(ids[a], ids[b]))
    && (forall v {:trigger handles[v]} :: 0 <= v < |handles| ==>
          s.vars[v] < |s.objs| && Names(ls, ids, handles[v], s.objs[s.vars[v]], caps[s.vars[v]]))
    && (forall v, u {:trigger Agree(handles[v], handles[u], s.vars[v], s.vars[u])} ::
          0 <= v < |handles| && 0 <= u < |handles| ==> Agree(handles[v], handles[u], s.vars[v], s.vars[u]))
  }

  lemma AddKeepsRepresents(ls: map<Ref, ListBlock>, ids: Ids, handles: Handles, s: State, caps: seq<int>, a: nat,
                           h: Ref, b: ListBlock)
    requires Represents(ls, ids, handles, s, caps) && h !in ls && a < |ids| && ids[a] == Some(h.id)
    ensures Represents(ls[h := b], ids, handles + [Some(h)], Added(s, a, b.items), caps + [b.cap])
  {
    var handles', s', caps' := handles + [Some(h)], Added(s, a, b.items), caps + [b.cap];
    forall v | 0 <= v < |handles|
      ensures Names(ls[h := b], ids, handles[v], s'.objs[s'.vars[v]], caps'[s'.vars[v]]) && handles[v] != Some(h)
    {
      assert Names(ls, ids, handles[v], s.objs[s.vars[v]], caps[s.vars[v]]);
    }
    forall v, u | 0 <= v < |handles'| && 0 <= u < |handles'|
      ensures Agree(handles'[v], handles'[u], s'.vars[v], s'.vars[u])
    {
      if v < |handles| && u < |handles| {
        assert Agree(handles[v], handles[u], s.vars[v], s.vars[u]);
      }
    }
  }

  lemma AliasKeepsRepresents(ls: map<Ref, ListBlock>, ids: Ids, handles: Handles, s: State, caps: seq<int>, v: nat)
    requires Represents(ls, ids, handles, s, caps) && v < |handles|
    ensures Represents(ls, ids, handles + [handles[v]], s.(vars := s.vars + [s.vars[v]]), caps)
  {
    var handles', vars' := handles + [handles[v]], s.vars + [s.vars[v]];
    forall w, u | 0 <= w < |handles'| && 0 <= u < |handles'|
      ensures Agree(handles'[w], handles'[u], vars'[w], vars'[u])
    {
      var w0, u0 := if w < |handles| then w else v, if u < |handles| then u else v;
      assert Agree(handles[w0], handles[u0], s.vars[w0], s.vars[u0]);
    }
  }

  // A list that changes. If it moves to a new handle, no other variable may name it.
  lemma ChangeKeepsRepresents(ls: map<Ref, ListBlock>, ids: Ids, handles: Handles, s: State, caps: seq<int>, v: nat,
                              h: Ref, b: ListBlock)
    requires Represents(ls, ids, handles, s, caps) && HasList(s, v) && handles[v].Some? && h.id == handles[v].value.id
    requires h == handles[v].value || (h !in ls && !Shared(s, v))
    ensures Represents((ls - {handles[v].value})[h := b], ids, handles[v := Some(h)], Changed(s, v, b.items),
                       caps[s.vars[v] := b.cap])
  {
    var g, ls', handles' := handles[v].value, (ls - {handles[v].value})[h := b], handles[v := Some(h)];
    var s', caps' := Changed(s, v, b.items), caps[s.vars[v] := b.cap];
    assert Names(ls, ids, handles[v], s.objs[s.vars[v]], caps[s.vars[v]]);
    forall u | 0 <= u < |handles| && u != v
      ensures Names(ls', ids, handles'[u], s'.objs[s'.vars[u]], caps'[s'.vars[u]])
      ensures handles[u] == Some(h) <==> s.vars[u] == s.vars[v]
    {
      assert Agree(handles[v], handles[u], s.vars[v], s.vars[u]) && Agree(handles[u], handles[v], s.vars[u], s.vars[v]);
      assert Names(ls, ids, handles[u], s.objs[s.vars[u]], caps[s.vars[u]]);
    }
    forall w, u | 0 <= w < |handles| && 0 <= u < |handles|
      ensures Agree(handles'[w], handles'[u], s'.vars[w], s'.vars[u])
    {
      assert Agree(handles[w], handles[u], s.vars[w], s.vars[u]);
    }
  }

  // The handles into one arena are forgotten.
  function Dropped(handles: Handles, id: int): (r: Handles)
    ensures |r| == |handles|
  {
    seq(|handles|, v requires 0 <= v < |handles| =>
      if handles[v].Some? && handles[v].value.id == id then None else handles[v])
  }

  // The variables whose lists are gone are those of the cleared arena.
  lemma DropKeepsRepresents(ls: map<Ref, ListBlock>, ids: Ids, handles: Handles, s: State, caps: seq<int>, a: nat)
    requires Represents(ls, ids, handles, s, caps) && HasArena(s, a)
    ensures ids[a].Some?
    ensures var s' := s.(objs := Emptied(s.objs, a));
            Represents(Without(ls, ids[a].value), ids, Dropped(handles, ids[a].value), s', caps)
  {
    var id := ids[a].value;
    var handles', objs' := Dropped(handles, id), Emptied(s.objs, a);
    forall v | 0 <= v < |handles|
      ensures Names(Without(ls, id), ids, handles'[v], objs'[s.vars[v]], caps[s.vars[v]])
    {
      assert Names(ls, ids, handles[v], s.objs[s.vars[v]], caps[s.vars[v]]);
      var x := s.objs[s.vars[v]];
      if x.Held? && x.arena != a {
        assert Differ(ids[if a < x.arena then a else x.arena], ids[if a < x.arena then x.arena else a]);
      }
    }
    forall v, u | 0 <= v < |handles| && 0 <= u < |handles|
      ensures Agree(handles'[v], handles'[u], s.vars[v], s.vars[u])
    {
      assert Agree(handles[v], handles[u], s.vars[v], s.vars[u]);
    }
  }

  // Once it has no lists, an arena can go.
  lemma FreeKeepsRepresents(ls: map<Ref, ListBlock>, ids: Ids, handles: Handles, s: State, caps: seq<int>, a: nat)
    requires Represents(ls, ids, handles, s, caps) && HasArena(s, a)
    requires forall o :: 0 <= o < |s.objs| && s.objs[o].Held? ==> s.objs[o].arena != a
    ensures Represents(ls, ids[a := None], handles, s.(arenas := s.arenas[a := false]), caps)
  {
    var ids', s' := ids[a := None], s.(arenas := s.arenas[a := false]);
    forall v | 0 <= v < |handles|
      ensures Names(ls, ids', handles[v], s'.objs[s'.vars[v]], caps[s'.vars[v]])
    {
      assert Names(ls, ids, handles[v], s.objs[s.vars[v]], caps[s.vars[v]]);
    }
    forall b, c | 0 <= b < c < |ids|
      ensures Differ(ids'[b], ids'[c])
    {
      assert Differ(ids[b], ids[c]);
    }
  }

  lemma DismissKeepsRepresents(ls: map<Ref, ListBlock>, ids: Ids, handles: Handles, s: State, caps: seq<int>, a: nat)
    requires Represents(ls, ids, handles, s, caps) && HasArena(s, a)
    ensures ids[a].Some?
    ensures Represents(Without(ls, ids[a].value), ids[a := None], Dropped(handles, ids[a].value),
                       s.(arenas := s.arenas[a := false], objs := Emptied(s.objs, a)), caps)
  {
    DropKeepsRepresents(ls, ids, handles, s, caps, a);
    FreeKeepsRepresents(Without(ls, ids[a].value), ids, Dropped(handles, ids[a].value),
                        s.(objs := Emptied(s.objs, a)), caps, a);
  }

  lemma ArenaKeepsRepresents(ls: map<Ref, ListBlock>, ids: Ids, handles: Handles, s: State, caps: seq<int>, id: int)
    requires Represents(ls, ids, handles, s, caps) && forall a :: 0 <= a < |ids| ==> ids[a] != Some(id)
    ensures Represents(ls, ids + [Some(id)], handles, s.(arenas := s.arenas + [true]), caps)
  {
    var ids', s' := ids + [Some(id)], s.(arenas := s.arenas + [true]);
    forall v | 0 <= v < |handles|
      ensures Names(ls, ids', handles[v], s'.objs[s'.vars[v]], caps[s'.vars[v]])
    {
      assert Names(ls, ids, handles[v], s.objs[s.vars[v]], caps[s.vars[v]]);
    }
    forall b, c | 0 <= b < c < |ids'|
      ensures Differ(ids'[b], ids'[c])
    {
      if c < |ids| {
        assert Differ(ids[b], ids[c]);
      }
    }
  }

  // ---- Programs on the registry ----

  class Program {
    const reg: Registry
    var ids: Ids
    var handles: Handles
    var full: set<int>
    var seen: seq<int>
    ghost var state: State
    ghost var sizes: Sizes

    // A program starts with no arenas and no variables of its own.
    constructor (reg: Registry)
      requires reg.Valid()
      ensures this.reg == reg && Valid() && state == EMPTY && sizes == Sizes([], [], reg.cap - |reg.live|)
    {
      this.reg, ids, handles, full, seen := reg, [], [], {}, [];
      state, sizes := EMPTY, Sizes([], [], reg.cap - |reg.live|);
    }

    ghost predicate Valid()
      reads this, reg, reg.arenas
    {
      && reg.Valid() && Linked(reg.lists) && sizes.free == reg.cap - |reg.live|
      && forall a {:trigger Known(a)} {:trigger ids[a]} :: 0 <= a < |ids| ==> Known(a)
    }

    // The lists, by these names, are the objects, the arenas are live, and what was read is what is kept.
    ghost predicate Linked(ls: map<Ref, ListBlock>)
      reads this, reg
    {
      && Represents(ls, ids, handles, state, sizes.caps) && Matches(state, sizes) && seen == state.seen
      && forall a :: 0 <= a < |ids| && ids[a].Some? ==> ids[a].value in reg.live
    }

    // The words handed out by arena a, and whether it is full.
    ghost predicate Known(a: int)
      requires 0 <= a < |ids|
      reads this, reg.arenas
    {
      ids[a].Some? ==>
        && 0 <= ids[a].value < |reg.arenas| && a < |sizes.tops|
        && reg.arenas[ids[a].value].top == sizes.tops[a]
        && (ids[a].value in full <==> sizes.tops[a] == TWO32)
    }

    // The operation has gone as it must: it is done as on sequences, or the variables are as before.
    // Nothing is said of the arenas once it is outside.
    twostate predicate Did(op: Op, o: Outcome)
      requires old(Matches(state, sizes))
      reads this, reg, reg.arenas
    {
      && o == Fate(old(state), old(sizes), op) && (o != Excluded ==> Valid())
      && if o == Done then
           Apply(old(state), op) == Some(state) && sizes == Resized(old(state), old(sizes), op)
         else state == old(state) && sizes == old(sizes)
    }

    // ---- Bookkeeping ----

    // All other arenas are known, and are others.
    ghost predicate KnowsOthers(a: nat)
      reads this, reg, reg.arenas
    {
      forall b {:trigger Known(b)} {:trigger ids[b]} :: 0 <= b < |ids| && b != a ==>
        Known(b) && (a < |ids| ==> Differ(ids[b], ids[a]))
    }

    // Whether arena id has handed out all its words: its bumper is 0 then, as it is before the first.
    method Note(h: Ref)
      requires reg.Valid() && h in reg.lists
      modifies this`full
      ensures forall k :: k in full <==> if k == h.id then reg.arenas[k].top == TWO32 else k in old(full)
    {
      reg.HandleFits(h);
      full := if reg.arenas[h.id].bumper == 0 then full + {h.id} else full - {h.id};
    }

    lemma OtherIds(a: nat, ls: map<Ref, ListBlock>)
      requires Linked(ls) && a < |ids| && ids[a].Some?
      ensures forall b :: 0 <= b < |ids| && b != a && ids[b].Some? ==> ids[b] != ids[a]
    {
      forall b | 0 <= b < |ids| && b != a && ids[b].Some?
        ensures ids[b] != ids[a]
      {
        assert Differ(ids[if a < b then a else b], ids[if a < b then b else a]);
      }
    }

    // Arena a, in which list h is, has handed out words.
    method Settle(ghost a: nat, h: Ref)
      requires reg.Valid() && h in reg.lists && Linked(reg.lists) && sizes.free == reg.cap - |reg.live|
      requires a < |ids| && ids[a] == Some(h.id) && reg.arenas[h.id].top == sizes.tops[a] && KnowsOthers(a)
      modifies this`full
      ensures Valid()
    {
      OtherIds(a, reg.lists);
      Note(h);
      forall c | 0 <= c < |ids|
        ensures Known(c)
      {
        assert c != a ==> old(Known(c));
      }
    }

    // The list v names is the block b now, under a handle that may be new, after so many words.
    method Update(v: nat, h: Ref, ghost b: ListBlock, ghost top: int, ghost before: map<Ref, ListBlock>)
      requires reg.Valid() && Linked(before) && sizes.free == reg.cap - |reg.live|
      requires HasList(state, v) && handles[v].Some? && h.id == handles[v].value.id
      requires h == handles[v].value || (h !in before && !Shared(state, v))
      requires reg.lists == (before - {handles[v].value})[h := b] && reg.arenas[h.id].top == top
      requires KnowsOthers(state.objs[state.vars[v]].arena)
      modifies this`handles, this`full, this`state, this`sizes
      ensures Valid() && state == Changed(old(state), v, b.items)
      ensures var o := old(state).vars[v];
              var a := old(state).objs[o].arena;
              sizes == old(sizes).(tops := old(sizes).tops[a := top], caps := old(sizes).caps[o := b.cap])
    {
      ghost var o := state.vars[v];
      ghost var a := state.objs[o].arena;
      assert Names(before, ids, handles[v], state.objs[o], sizes.caps[o]);
      Rename(v, h, b, top, before);
      Settle(a, h);
    }

    method Rename(v: nat, h: Ref, ghost b: ListBlock, ghost top: int, ghost before: map<Ref, ListBlock>)
      requires Linked(before) && HasList(state, v) && handles[v].Some? && h.id == handles[v].value.id
      requires h == handles[v].value || (h !in before && !Shared(state, v))
      requires KnowsOthers(state.objs[state.vars[v]].arena)
      modifies this`handles, this`state, this`sizes
      ensures Linked((before - {old(handles)[v].value})[h := b]) && state == Changed(old(state), v, b.items)
      ensures var o := old(state).vars[v];
              var a := old(state).objs[o].arena;
              && sizes == old(sizes).(tops := old(sizes).tops[a := top], caps := old(sizes).caps[o := b.cap])
              && KnowsOthers(a)
    {
      ghost var o := state.vars[v];
      ghost var a := state.objs[o].arena;
      ChangeKeepsRepresents(before, ids, handles, state, sizes.caps, v, h, b);
      handles := handles[v := Some(h)];
      state := Changed(state, v, b.items);
      sizes := sizes.(tops := sizes.tops[a := top], caps := sizes.caps[o := b.cap]);
      forall c | 0 <= c < |ids| && c != a
        ensures Known(c)
      {
        assert old(Known(c));
      }
    }

    // The list after an operation that leaves it where it is.
    ghost predicate Rewritten(v: nat, h: Ref, ys: seq<Word>, before: map<Ref, ListBlock>)
      reads this, reg, reg.arenas
    {
      && reg.Valid() && Holds(v, h, before) && sizes.free == reg.cap - |reg.live|
      && (var a := state.objs[state.vars[v]].arena;
          && a < |ids| && ids[a] == Some(h.id) && KnowsOthers(a) && reg.arenas[h.id].top == sizes.tops[a])
      && reg.lists == before[h := With(before[h], ys)]
    }

    method UpdateInPlace(v: nat, h: Ref, ghost ys: seq<Word>, ghost before: map<Ref, ListBlock>)
      requires Rewritten(v, h, ys, before)
      modifies this`handles, this`full, this`state, this`sizes
      ensures Valid() && state == Changed(old(state), v, ys) && sizes == old(sizes)
    {
      ghost var o := state.vars[v];
      ghost var a := state.objs[o].arena;
      ghost var b := With(before[h], ys);
      assert (before - {h})[h := b] == before[h := b];
      assert sizes.tops[a := sizes.tops[a]] == sizes.tops && sizes.caps[o := sizes.caps[o]] == sizes.caps;
      Update(v, h, b, sizes.tops[a], before);
    }

    // A new variable for a new list, in arena a.
    method Declare(ghost a: nat, h: Ref, ghost b: ListBlock, ghost top: int, ghost before: map<Ref, ListBlock>)
      requires reg.Valid() && Linked(before) && sizes.free == reg.cap - |reg.live|
      requires HasArena(state, a) && a < |ids| && ids[a] == Some(h.id) && KnowsOthers(a)
      requires h !in before && reg.lists == before[h := b] && reg.arenas[h.id].top == top
      modifies this`handles, this`full, this`state, this`sizes
      ensures Valid() && state == Added(old(state), a, b.items)
      ensures sizes == old(sizes).(tops := old(sizes).tops[a := top], caps := old(sizes).caps + [b.cap])
    {
      AddKeepsRepresents(before, ids, handles, state, sizes.caps, a, h, b);
      handles := handles + [Some(h)];
      state := Added(state, a, b.items);
      sizes := sizes.(tops := sizes.tops[a := top], caps := sizes.caps + [b.cap]);
      forall c | 0 <= c < |ids| && c != a
        ensures Known(c)
      {
        assert old(Known(c));
      }
      Settle(a, h);
    }

    // The program reads a word or a position.
    method See(x: int)
      requires Valid()
      modifies this`state, this`seen
      ensures Valid() && state == Seen(old(state), x)
    {
      seen := seen + [x];
      state := Seen(state, x);
      forall c | 0 <= c < |ids|
        ensures Known(c)
      {
        assert old(Known(c));
      }
    }

    // The handle h of v, and its list.
    ghost predicate Holds(v: nat, h: Ref, ls: map<Ref, ListBlock>)
      reads this, reg
    {
      && Linked(ls) && HasList(state, v) && v < |handles| && handles[v] == Some(h) && h in ls
      && ls[h] == Block(sizes.caps[state.vars[v]], Items(state, v)) && 0 <= h.id < |reg.arenas|
    }

    // The list of v, before an operation, with what is known of its arena.
    ghost predicate Ready(v: nat, h: Ref)
      reads this, reg, reg.arenas
    {
      && reg.Valid() && Holds(v, h, reg.lists) && sizes.free == reg.cap - |reg.live|
      && var a := state.objs[state.vars[v]].arena;
         a < |ids| && ids[a] == Some(h.id) && KnowsOthers(a) && reg.arenas[h.id].top == sizes.tops[a]
         && (h.id in full <==> sizes.tops[a] == TWO32)
    }

    method HandleOf(v: nat) returns (h: Ref)
      requires Valid() && HasList(state, v)
      ensures Ready(v, h)
    {
      assert Names(reg.lists, ids, handles[v], state.objs[state.vars[v]], sizes.caps[state.vars[v]]);
      h := handles[v].value;
      ghost var a := state.objs[state.vars[v]].arena;
      assert Known(a);
      OtherIds(a, reg.lists);
    }

    // Whether another variable has the same handle.
    method HasTwin(v: nat) returns (b: bool)
      requires Valid() && HasList(state, v)
      ensures b <==> Shared(state, v)
    {
      var h := HandleOf(v);
      b := exists u :: 0 <= u < |handles| && u != v && handles[u] == handles[v];
      forall u | 0 <= u < |handles|
        ensures handles[u] == handles[v] <==> state.vars[u] == state.vars[v]
      {
        assert Agree(handles[v], handles[u], state.vars[v], state.vars[u]);
      }
    }

    // ---- Operations on one list ----

    method Alias(v: nat) returns (o: Outcome)
      requires Valid() && HasList(state, v)
      modifies this`handles, this`state
      ensures Did(Op.Alias(v), o)
    {
      AliasKeepsRepresents(reg.lists, ids, handles, state, sizes.caps, v);
      handles := handles + [handles[v]];
      state := state.(vars := state.vars + [state.vars[v]]);
      forall c | 0 <= c < |ids|
        ensures Known(c)
      {
        assert old(Known(c));
      }
      o := Done;
    }

    method Append(v: nat, x: Word) returns (o: Outcome)
      requires Valid() && HasList(state, v)
      modifies this, reg, reg.arenas
      ensures Did(Op.Append(v, x), o)
    {
      FateOfAppend(state, sizes, v, x);
      var h, stuck, strands := Examine(v);
      if stuck {
        return Excluded;
      }
      ghost var before, ys := reg.lists, Items(state, v) + [x];
      var r := PushTo(v, h, x);
      o := Place(v, h, r, ys, strands, before);
    }

    method PushTo(v: nat, h: Ref, x: Word) returns (r: Option<Ref>)
      requires Ready(v, h) && !reg.Stuck(h)
      modifies reg, reg.arenas
      ensures Grown(v, h, r, Items(state, v) + [x], old(reg.lists))
    {
      r := reg.ListAppend(h, x);
      forall b | 0 <= b < |ids| && b != state.objs[state.vars[v]].arena
        ensures Known(b) && Differ(ids[b], ids[state.objs[state.vars[v]].arena])
      {
        assert old(Known(b));
      }
    }

    method Insert(v: nat, i: int, x: Word) returns (o: Outcome)
      requires Valid() && HasList(state, v)
      modifies this, reg, reg.arenas
      ensures Did(Op.Insert(v, i, x), o)
    {
      FateOfInsert(state, sizes, v, i, x);
      var h, stuck, strands := Examine(v);
      var xs := reg.Read(h);
      if !InRange(i, |xs|) {
        return Raised;
      }
      if stuck {
        return Excluded;
      }
      ghost var before, ys := reg.lists, Inserted(xs, i, x);
      var r := InsertTo(v, h, i, x);
      o := Place(v, h, r, ys, strands, before);
    }

    method InsertTo(v: nat, h: Ref, i: int, x: Word) returns (r: Option<Ref>)
      requires Ready(v, h) && !reg.Stuck(h) && InRange(i, |Items(state, v)|)
      modifies reg, reg.arenas
      ensures Grown(v, h, r, Inserted(Items(state, v), i, x), old(reg.lists))
    {
      r := reg.ListInsert(h, i, x);
      forall b | 0 <= b < |ids| && b != state.objs[state.vars[v]].arena
        ensures Known(b) && Differ(ids[b], ids[state.objs[state.vars[v]].arena])
      {
        assert old(Known(b));
      }
    }

    // The list after the registry has added an element, or has panicked.
    ghost predicate Grown(v: nat, h: Ref, r: Option<Ref>, ys: seq<Word>, before: map<Ref, ListBlock>)
      reads this, reg, reg.arenas
    {
      && reg.Valid() && Holds(v, h, before) && sizes.free == reg.cap - |reg.live|
      && (var o, a := state.vars[v], state.objs[state.vars[v]].arena;
          && a < |ids| && ids[a] == Some(h.id) && KnowsOthers(a) && (r == None <==> Crowded(state, sizes, v))
          && (h.id in full <==> sizes.tops[a] == TWO32)
          && reg.arenas[h.id].top == if r == None then sizes.tops[a] else Regrown(state, sizes, v).tops[a])
      && (r == None ==> reg.lists == before)
      && (r.Some? ==>
            && r.value.id == h.id && (if IsFull(state, sizes, v) then r.value !in before else r.value == h)
            && reg.lists == (before - {h})[r.value := Registries.Widened(before[h], ys)])
    }

    // Whether one more element makes the list move, in a full arena, or away from another variable.
    method Examine(v: nat) returns (h: Ref, stuck: bool, strands: bool)
      requires Valid() && HasList(state, v)
      ensures Ready(v, h) && (stuck <==> reg.Stuck(h))
      ensures var a := state.objs[state.vars[v]].arena; stuck <==> IsFull(state, sizes, v) && sizes.tops[a] == TWO32
      ensures strands <==> IsFull(state, sizes, v) && Shared(state, v)
    {
      h := HandleOf(v);
      var twin := HasTwin(v);
      var crowded := reg.AtCapacity(h);
      stuck, strands := crowded && h.id in full, crowded && twin;
    }

    // After an append or an insertion on the registry.
    method Place(v: nat, h: Ref, r: Option<Ref>, ghost ys: seq<Word>, strands: bool, ghost before: map<Ref, ListBlock>)
      returns (o: Outcome)
      requires Grown(v, h, r, ys, before)
      requires strands <==> IsFull(state, sizes, v) && Shared(state, v)
      modifies this`handles, this`full, this`state, this`sizes
      ensures o == if r == None then Panicked else if strands then Excluded else Done
      ensures o != Excluded ==> Valid()
      ensures if o == Done then
                state == Changed(old(state), v, ys) && sizes == Regrown(old(state), old(sizes), v)
              else state == old(state) && sizes == old(sizes)
    {
      if r == None {
        o := Panicked;
      } else if strands {
        o := Excluded;
      } else {
        ghost var oo := state.vars[v];
        ghost var a := state.objs[oo].arena;
        assert sizes.tops[a := sizes.tops[a]] == sizes.tops && sizes.caps[oo := sizes.caps[oo]] == sizes.caps;
        Update(v, r.value, Registries.Widened(before[h], ys), reg.arenas[h.id].top, before);
        o := Done;
      }
    }

    method SetIn(v: nat, h: Ref, i: int, x: Word) returns (ok: bool)
      requires Ready(v, h)
      modifies reg, reg.arenas
      ensures ok <==> InRange(i, |Items(state, v)|)
      ensures Rewritten(v, h, if ok then Replaced(Items(state, v), i, x) else Items(state, v), old(reg.lists))
    {
      ok := reg.ListSet(h, i, x);
      forall b | 0 <= b < |ids| && b != state.objs[state.vars[v]].arena
        ensures Known(b) && Differ(ids[b], ids[state.objs[state.vars[v]].arena])
      {
        assert old(Known(b));
      }
    }

    method Assign(v: nat, i: int, x: Word) returns (o: Outcome)
      requires Valid() && HasList(state, v)
      modifies this, reg, reg.arenas
      ensures Did(Op.Assign(v, i, x), o)
    {
      FateInPlace(state, sizes, Op.Assign(v, i, x));
      var ok := AssignAt(v, i, x);
      o := if ok then Done else Raised;
    }

    method AssignAt(v: nat, i: int, x: Word) returns (ok: bool)
      requires Valid() && HasList(state, v)
      modifies this, reg, reg.arenas
      ensures Valid() && (ok <==> InRange(i, |old(Items(state, v))|)) && sizes == old(sizes)
      ensures state == if ok then Changed(old(state), v, Replaced(old(Items(state, v)), i, x)) else old(state)
    {
      SameItems(state, v);
      var h := HandleOf(v);
      ghost var before, xs := reg.lists, Items(state, v);
      ok := SetIn(v, h, i, x);
      UpdateInPlace(v, h, if ok then Replaced(xs, i, x) else xs, before);
    }

    method ReadAt(v: nat, i: int) returns (r: Option<Word>)
      requires Valid() && HasList(state, v)
      ensures var xs := Items(state, v);
              r == if InRange(i, |xs|) then Some(xs[if i < 0 then i + |xs| else i]) else None
    {
      var h := HandleOf(v);
      r := reg.ListIndex(h, i);
    }

    method Fetch(v: nat, i: int) returns (o: Outcome)
      requires Valid() && HasList(state, v)
      modifies this`state, this`seen
      ensures Did(Op.Fetch(v, i), o)
    {
      FateInPlace(state, sizes, Op.Fetch(v, i));
      var r := ReadAt(v, i);
      if r == None {
        return Raised;
      }
      See(r.value);
      o := Done;
    }

    method Find(v: nat, x: Word, start: int, end: int) returns (o: Outcome)
      requires Valid() && HasList(state, v)
      modifies this`state, this`seen
      ensures Did(Op.Find(v, x, start, end), o)
    {
      FateInPlace(state, sizes, Op.Find(v, x, start, end));
      var h := HandleOf(v);
      var r := reg.ListFind(h, x, start, end);
      if r == None {
        return Raised;
      }
      See(r.value);
      o := Done;
    }

    method PopIn(v: nat, h: Ref) returns (r: Option<Word>)
      requires Ready(v, h)
      modifies reg, reg.arenas
      ensures Rewritten(v, h, Popped(Items(state, v)), old(reg.lists)) && r == Last(Items(state, v))
    {
      r := reg.ListPop(h);
      forall b | 0 <= b < |ids| && b != state.objs[state.vars[v]].arena
        ensures Known(b) && Differ(ids[b], ids[state.objs[state.vars[v]].arena])
      {
        assert old(Known(b));
      }
    }

    method Pop(v: nat) returns (o: Outcome)
      requires Valid() && HasList(state, v)
      modifies this, reg, reg.arenas
      ensures Did(Op.Pop(v), o)
    {
      FateInPlace(state, sizes, Op.Pop(v));
      var r := PopOff(v);
      if r == None {
        return Raised;
      }
      See(r.value);
      o := Done;
    }

    method PopOff(v: nat) returns (r: Option<Word>)
      requires Valid() && HasList(state, v)
      modifies this, reg, reg.arenas
      ensures Valid() && r == Last(old(Items(state, v))) && sizes == old(sizes)
      ensures state == if r == None then old(state) else Changed(old(state), v, Popped(old(Items(state, v))))
    {
      SameItems(state, v);
      var h := HandleOf(v);
      ghost var before, ys := reg.lists, Popped(Items(state, v));
      r := PopIn(v, h);
      UpdateInPlace(v, h, ys, before);
    }

    method RemoveIn(v: nat, h: Ref, x: Word) returns (ok: bool)
      requires Ready(v, h)
      modifies reg, reg.arenas
      ensures ok <==> x in Items(state, v)
      ensures Rewritten(v, h, if ok then Removed(Items(state, v), x) else Items(state, v), old(reg.lists))
    {
      ok := reg.ListRemove(h, x);
      forall b | 0 <= b < |ids| && b != state.objs[state.vars[v]].arena
        ensures Known(b) && Differ(ids[b], ids[state.objs[state.vars[v]].arena])
      {
        assert old(Known(b));
      }
    }

    method Remove(v: nat, x: Word) returns (o: Outcome)
      requires Valid() && HasList(state, v)
      modifies this, reg, reg.arenas
      ensures Did(Op.Remove(v, x), o)
    {
      FateInPlace(state, sizes, Op.Remove(v, x));
      var ok := RemoveFirst(v, x);
      o := if ok then Done else Raised;
    }

    method RemoveFirst(v: nat, x: Word) returns (ok: bool)
      requires Valid() && HasList(state, v)
      modifies this, reg, reg.arenas
      ensures Valid() && (ok <==> x in old(Items(state, v))) && sizes == old(sizes)
      ensures state == if ok then Changed(old(state), v, Removed(old(Items(state, v)), x)) else old(state)
    {
      SameItems(state, v);
      var h := HandleOf(v);
      ghost var before, xs := reg.lists, Items(state, v);
      ok := RemoveIn(v, h, x);
      UpdateInPlace(v, h, if ok then Removed(xs, x) else xs, before);
    }

    method ReverseIn(v: nat, h: Ref)
      requires Ready(v, h)
      modifies reg, reg.arenas
      ensures Rewritten(v, h, Reversed(Items(state, v)), old(reg.lists))
    {
      reg.ListReverse(h);
      forall b | 0 <= b < |ids| && b != state.objs[state.vars[v]].arena
        ensures Known(b) && Differ(ids[b], ids[state.objs[state.vars[v]].arena])
      {
        assert old(Known(b));
      }
    }

    method Reverse(v: nat) returns (o: Outcome)
      requires Valid() && HasList(state, v)
      modifies this, reg, reg.arenas
      ensures Did(Op.Reverse(v), o)
    {
      FateInPlace(state, sizes, Op.Reverse(v));
      var h := HandleOf(v);
      ghost var before, ys := reg.lists, Reversed(Items(state, v));
      ReverseIn(v, h);
      UpdateInPlace(v, h, ys, before);
      o := Done;
    }

    method ClearIn(v: nat, h: Ref)
      requires Ready(v, h)
      modifies reg, reg.arenas
      ensures Rewritten(v, h, [], old(reg.lists))
    {
      reg.ListClear(h);
      forall b | 0 <= b < |ids| && b != state.objs[state.vars[v]].arena
        ensures Known(b) && Differ(ids[b], ids[state.objs[state.vars[v]].arena])
      {
        assert old(Known(b));
      }
    }

    method Clear(v: nat) returns (o: Outcome)
      requires Valid() && HasList(state, v)
      modifies this, reg, reg.arenas
      ensures Did(Op.Clear(v), o)
    {
      FateInPlace(state, sizes, Op.Clear(v));
      var h := HandleOf(v);
      ghost var before := reg.lists;
      ClearIn(v, h);
      UpdateInPlace(v, h, [], before);
      o := Done;
    }

    // ---- Operations that make a list ----

    // Arena a, before an operation.
    ghost predicate Open(a: nat, id: int)
      reads this, reg, reg.arenas
    {
      && reg.Valid() && Linked(reg.lists) && sizes.free == reg.cap - |reg.live|
      && HasArena(state, a) && a < |ids| && ids[a] == Some(id) && KnowsOthers(a) && id in reg.live
      && reg.arenas[id].top == sizes.tops[a] && (id in full <==> sizes.tops[a] == TWO32)
    }

    // The registry has made a list of these elements there, or has panicked.
    ghost predicate Made(a: nat, id: int, r: Option<Ref>, len: nat, zs: seq<Word>, before: map<Ref, ListBlock>)
      reads this, reg, reg.arenas
    {
      && reg.Valid() && Linked(before) && sizes.free == reg.cap - |reg.live|
      && HasArena(state, a) && a < |ids| && ids[a] == Some(id) && KnowsOthers(a) && 0 <= id < |reg.arenas|
      && (id in full <==> sizes.tops[a] == TWO32) && (r == None <==> NoSpace(sizes.tops[a], len))
      && reg.arenas[id].top == (if r == None then sizes.tops[a] else Housed(sizes, a, len).tops[a])
      && (r == None ==> reg.lists == before)
      && (r.Some? ==>
            |zs| == len && r.value.id == id && r.value !in before && reg.lists == before[r.value := Sized(zs)])
    }

    method OpenArena(a: nat) returns (id: int)
      requires Valid() && HasArena(state, a)
      ensures Open(a, id)
    {
      assert ids[a].Some? && Known(a);
      OtherIds(a, reg.lists);
      id := ids[a].value;
    }

    // The new list gets a variable.
    method Keep(ghost a: nat, id: int, r: Option<Ref>, ghost len: nat, ghost zs: seq<Word>,
                ghost before: map<Ref, ListBlock>)
      returns (o: Outcome)
      requires Made(a, id, r, len, zs, before)
      modifies this`handles, this`full, this`state, this`sizes
      ensures Valid() && o == if r == None then Panicked else Done
      ensures if o == Done then
                state == Added(old(state), a, zs) && sizes == Housed(old(sizes), a, len)
              else state == old(state) && sizes == old(sizes)
    {
      if r == None {
        o := Panicked;
      } else {
        Declare(a, r.value, Sized(zs), reg.arenas[id].top, before);
        o := Done;
      }
    }

    method Create(a: nat, values: seq<Word>) returns (o: Outcome)
      requires Valid() && HasArena(state, a)
      modifies this, reg, reg.arenas
      ensures Did(Op.Create(a, values), o)
    {
      FateOfCreate(state, sizes, a, values);
      var id := OpenArena(a);
      if |values| >= TWO32 || id in full {
        return Excluded;
      }
      ghost var before := reg.lists;
      var r := CreateIn(a, id, values);
      o := Keep(a, id, r, |values|, values, before);
    }

    method CreateIn(ghost a: nat, id: int, values: seq<Word>) returns (r: Option<Ref>)
      requires Open(a, id) && id !in full && |values| < TWO32
      modifies reg, reg.arenas
      ensures Made(a, id, r, |values|, values, old(reg.lists))
    {
      assert values[..|values|] == values;
      r := reg.ListCreate(id, Some(values), |values|);
      forall b | 0 <= b < |ids| && b != a
        ensures Known(b) && Differ(ids[b], ids[a])
      {
        assert old(Known(b));
      }
    }

    method Concat(a: nat, v: nat, u: nat) returns (o: Outcome)
      requires Valid() && HasArena(state, a) && HasList(state, v) && HasList(state, u)
      modifies this, reg, reg.arenas
      ensures Did(Op.Concat(a, v, u), o)
    {
      FateOfConcat(state, sizes, a, v, u);
      var id := OpenArena(a);
      if id in full {
        return Excluded;
      }
      ghost var before, zs := reg.lists, Items(state, v) + Items(state, u);
      var r := ConcatIn(a, id, v, u, zs);
      o := Keep(a, id, r, |zs|, zs, before);
    }

    method ConcatIn(ghost a: nat, id: int, v: nat, u: nat, ghost zs: seq<Word>) returns (r: Option<Ref>)
      requires Valid() && Open(a, id) && id !in full && HasList(state, v) && HasList(state, u)
      requires zs == Items(state, v) + Items(state, u)
      modifies reg, reg.arenas
      ensures Made(a, id, r, |zs|, zs, old(reg.lists))
    {
      var h1 := HandleOf(v);
      var h2 := HandleOf(u);
      r := JoinIn(a, id, h1, h2, zs);
    }

    method JoinIn(ghost a: nat, id: int, h1: Ref, h2: Ref, ghost zs: seq<Word>) returns (r: Option<Ref>)
      requires Open(a, id) && id !in full && h1 in reg.lists && h2 in reg.lists
      requires zs == reg.lists[h1].items + reg.lists[h2].items
      modifies reg, reg.arenas
      ensures Made(a, id, r, |zs|, zs, old(reg.lists))
    {
      r := reg.ListConcat(id, h1, h2);
      forall b | 0 <= b < |ids| && b != a
        ensures Known(b) && Differ(ids[b], ids[a])
      {
        assert old(Known(b));
      }
    }

    method Times(a: nat, v: nat, times: int) returns (o: Outcome)
      requires Valid() && HasArena(state, a) && HasList(state, v)
      modifies this, reg, reg.arenas
      ensures Did(Op.Times(a, v, times), o)
    {
      FateOfTimes(state, sizes, a, v, times);
      var id := OpenArena(a);
      if id in full {
        return Excluded;
      }
      ghost var before, xs := reg.lists, Items(state, v);
      var h := HandleOf(v);
      var spoiled, r := RepeatIn(a, id, h, xs, times);
      if spoiled {
        return Excluded;
      }
      o := Keep(a, id, r, MultLength(|xs|, times), PythonRepeat(xs, times), before);
    }

    method Keeps(h: Ref, times: int) returns (kept: bool)
      requires reg.Valid() && h in reg.lists
      ensures kept <==> CountKept(reg.lists[h].items, times)
    {
      var xs := reg.Read(h);
      kept := CountKept(xs, times);
    }

    method RepeatIn(ghost a: nat, id: int, h: Ref, ghost xs: seq<Word>, times: int)
      returns (spoiled: bool, r: Option<Ref>)
      requires Open(a, id) && id !in full && h in reg.lists && xs == reg.lists[h].items
      modifies reg, reg.arenas
      ensures spoiled <==> Making(sizes, a, MultLength(|xs|, times)) == Done && Spoiled(xs, times)
      ensures !spoiled ==> Made(a, id, r, MultLength(|xs|, times), PythonRepeat(xs, times), old(reg.lists))
    {
      var kept := Keeps(h, times);
      var m := reg.ListMult(id, h, times);
      RepeatIsPython(xs, times);
      if !MultWraps(|xs|, times) {
        MultCopies(xs, times);
      }
      forall b | 0 <= b < |ids| && b != a
        ensures Known(b) && Differ(ids[b], ids[a])
      {
        assert old(Known(b));
      }
      match m {
        case Panic => spoiled, r := false, None;
        case Escape => spoiled, r := true, None;
        case Made(list) => spoiled, r := !kept, Some(list);
      }
    }

    // ---- Operations on arenas ----

    method NewArena() returns (o: Outcome)
      requires Valid()
      modifies this, reg, reg.arenas
      ensures Did(Op.NewArena, o)
    {
      reg.LiveCount();
      var r := reg.ArenaCreate();
      if r == None {
        return Panicked;
      }
      AddArena(r.value);
      o := Done;
    }

    // The arena with this id is new, and empty.
    method AddArena(id: int)
      requires reg.Valid() && Linked(reg.lists) && id in reg.live && reg.arenas[id].top == 0
      requires sizes.free == reg.cap - |reg.live| + 1 && KnowsOthers(|ids|)
      requires forall a :: 0 <= a < |ids| ==> ids[a] != Some(id)
      modifies this
      ensures Valid() && state == old(state).(arenas := old(state).arenas + [true])
      ensures sizes == old(sizes).(tops := old(sizes).tops + [0], free := old(sizes).free - 1)
    {
      ArenaKeepsRepresents(reg.lists, ids, handles, state, sizes.caps, id);
      ids, full := ids + [Some(id)], full - {id};
      state := state.(arenas := state.arenas + [true]);
      sizes := sizes.(tops := sizes.tops + [0], free := sizes.free - 1);
      forall a | 0 <= a < |ids|
        ensures Known(a)
      {
        if a < |ids| - 1 {
          assert old(Known(a));
        }
      }
    }

    method ClearArena(a: nat) returns (o: Outcome)
      requires Valid() && HasArena(state, a)
      modifies this, reg, reg.arenas
      ensures Did(Op.ClearArena(a), o)
    {
      var id := OpenArena(a);
      ghost var before := reg.lists;
      ClearIt(a, id);
      Empty(a, id, before);
      o := Done;
    }

    method ClearIt(ghost a: nat, id: int)
      requires Open(a, id)
      modifies reg, reg.arenas
      ensures reg.Valid() && Linked(old(reg.lists)) && KnowsOthers(a) && sizes.free == reg.cap - |reg.live|
      ensures reg.lists == Without(old(reg.lists), id) && 0 <= id < |reg.arenas| && reg.arenas[id].top == 0
    {
      reg.ArenaClear(id);
      forall b | 0 <= b < |ids| && b != a
        ensures Known(b) && Differ(ids[b], ids[a])
      {
        assert old(Known(b));
      }
    }

    // Arena a has no lists any more, and is empty.
    method Empty(a: nat, id: int, ghost before: map<Ref, ListBlock>)
      requires reg.Valid() && HasArena(state, a) && Linked(before) && reg.lists == Without(before, id)
      requires a < |ids| && ids[a] == Some(id) && KnowsOthers(a) && 0 <= id < |reg.arenas| && reg.arenas[id].top == 0
      requires sizes.free == reg.cap - |reg.live|
      modifies this`handles, this`full, this`state, this`sizes
      ensures Valid() && state == old(state).(objs := Emptied(old(state).objs, a))
      ensures sizes == old(sizes).(tops := old(sizes).tops[a := 0])
    {
      DropKeepsRepresents(before, ids, handles, state, sizes.caps, a);
      EmptiedMatches(state, sizes, a);
      handles, full := Dropped(handles, id), full - {id};
      state := state.(objs := Emptied(state.objs, a));
      sizes := sizes.(tops := sizes.tops[a := 0]);
      forall b | 0 <= b < |ids|
        ensures Known(b)
      {
        assert b != a ==> old(Known(b));
      }
    }

    method FreeArena(a: nat) returns (o: Outcome)
      requires Valid() && HasArena(state, a)
      modifies this, reg, reg.arenas
      ensures Did(Op.FreeArena(a), o)
    {
      var id := OpenArena(a);
      ghost var before := reg.lists;
      FreeIt(a, id);
      Dismiss(a, id, before);
      o := Done;
    }

    method FreeIt(ghost a: nat, id: int)
      requires Open(a, id)
      modifies reg, reg.arenas
      ensures reg.Valid() && Represents(old(reg.lists), ids, handles, state, sizes.caps) && Matches(state, sizes)
      ensures KnowsOthers(a) && sizes.free + 1 == reg.cap - |reg.live| && reg.lists == Without(old(reg.lists), id)
      ensures forall b :: 0 <= b < |ids| && b != a && ids[b].Some? ==> ids[b].value in reg.live
    {
      reg.ArenaFree(id);
      forall b | 0 <= b < |ids| && b != a
        ensures Known(b) && Differ(ids[b], ids[a])
      {
        assert old(Known(b));
      }
    }

    // Arena a is no more.
    method Dismiss(a: nat, id: int, ghost before: map<Ref, ListBlock>)
      requires reg.Valid() && HasArena(state, a) && a < |ids| && ids[a] == Some(id) && Matches(state, sizes)
      requires seen == state.seen
      requires Represents(before, ids, handles, state, sizes.caps) && reg.lists == Without(before, id)
      requires KnowsOthers(a) && sizes.free + 1 == reg.cap - |reg.live|
      requires forall b :: 0 <= b < |ids| && b != a && ids[b].Some? ==> ids[b].value in reg.live
      modifies this`ids, this`handles, this`state, this`sizes
      ensures Valid()
      ensures state == old(state).(arenas := old(state).arenas[a := false], objs := Emptied(old(state).objs, a))
      ensures sizes == old(sizes).(free := old(sizes).free + 1)
    {
      DismissKeepsRepresents(before, ids, handles, state, sizes.caps, a);
      EmptiedMatches(state, sizes, a);
      ids, handles := ids[a := None], Dropped(handles, id);
      state := state.(arenas := state.arenas[a := false], objs := Emptied(state.objs, a));
      sizes := sizes.(free := sizes.free + 1);
      forall b | 0 <= b < |ids|
        ensures Known(b)
      {
        assert b != a ==> old(Known(b));
      }
    }

    // ---- Runs ----

    // One operation of a program.
    method Step(op: Op) returns (o: Outcome)
      requires Valid()
      modifies this, reg, reg.arenas
      ensures Did(op, o)
    {
      var defined := IsDefined(op);
      if !defined {
        return Excluded;
      }
      match op {
        case NewArena => o := NewArena();
        case FreeArena(a) => o := FreeArena(a);
        case ClearArena(a) => o := ClearArena(a);
        case Create(a, values) => o := Create(a, values);
        case Concat(a, v, u) => o := Concat(a, v, u);
        case Times(a, v, n) => o := Times(a, v, n);
        case _ => o := StepOn(op);
      }
    }

    // An operation on one list.
    method StepOn(op: Op) returns (o: Outcome)
      requires Valid() && OnOneList(op) && HasList(state, op.list)
      modifies this, reg, reg.arenas
      ensures Did(op, o)
    {
      match op {
        case Alias(v) => o := Alias(v);
        case Append(v, x) => o := Append(v, x);
        case Insert(v, i, x) => o := Insert(v, i, x);
        case Assign(v, i, x) => o := Assign(v, i, x);
        case Fetch(v, i) => o := Fetch(v, i);
        case Find(v, x, start, end) => o := Find(v, x, start, end);
        case Pop(v) => o := Pop(v);
        case Remove(v, x) => o := Remove(v, x);
        case Reverse(v) => o := Reverse(v);
        case Clear(v) => o := Clear(v);
      }
    }

    method IsDefined(op: Op) returns (b: bool)
      requires Valid()
      ensures b <==> Defined(state, op)
    {
      match op {
        case NewArena => b := true;
        case FreeArena(a) => b := KnowsArena(a);
        case ClearArena(a) => b := KnowsArena(a);
        case Create(a, _) => b := KnowsArena(a);
        case Concat(a, v, u) => b := KnowsArena(a) && KnowsList(v) && KnowsList(u);
        case Times(a, v, _) => b := KnowsArena(a) && KnowsList(v);
        case _ => b := KnowsList(op.list);
      }
    }

    predicate KnowsArena(a: nat): (b: bool)
      requires Valid()
      reads this, reg, reg.arenas
      ensures b <==> HasArena(state, a)
    {
      a < |ids| && ids[a].Some?
    }

    predicate KnowsList(v: nat): (b: bool)
      requires Valid()
      reads this, reg, reg.arenas
      ensures b <==> HasList(state, v)
    {
      assert v < |handles| ==>
               Names(reg.lists, ids, handles[v], state.objs[state.vars[v]], sizes.caps[state.vars[v]]);
      v < |handles| && handles[v].Some?
    }

    // Every run goes as `Ends` says: up to operation k the lists in the arenas are what the same
    // program makes of sequences, and there it ends as the program and the sizes demand.
    method Run(ops: seq<Op>) returns (o: Outcome, k: nat)
      requires Valid()
      modifies this, reg, reg.arenas
      ensures Ends(old(state), old(sizes), ops) == Ending(o, state, sizes, k) && (o != Excluded ==> Valid())
      ensures k <= |ops| && RunOn(old(state), ops[..k]) == Some(state) && Matches(state, sizes)
      ensures if o == Done then k == |ops| else k < |ops| && o == Fate(state, sizes, ops[k])
    {
      o, k := Done, 0;
      while k < |ops|
        invariant k <= |ops| && o == Done && Valid()
        invariant Ends(old(state), old(sizes), ops[..k]) == Ending(Done, state, sizes, k)
      {
        EndsFrom(old(state), old(sizes), ops, k);
        o := Step(ops[k]);
        if o != Done {
          EndsIsRunOn(old(state), old(sizes), ops);
          return;
        }
        k := k + 1;
      }
      assert ops[..k] == ops;
      EndsIsRunOn(old(state), old(sizes), ops);
    }
  }

  // A program that fits, from the start, on a registry with as many free slots: it runs to its end,
  // and has what it has on sequences.
  method Execute(reg: Registry, ops: seq<Op>) returns (p: Program)
    requires reg.Valid() && Fits(EMPTY, [], reg.cap - |reg.live|, ops)
    modifies reg, reg.arenas
    ensures fresh(p) && p.reg == reg && p.Valid() && RunOn(EMPTY, ops) == Some(p.state)
  {
    FinishesFromStart(reg.cap - |reg.live|, ops);
    p := new Program(reg);
    var o, k := p.Run(ops);
    assert ops[..|ops|] == ops;
  }
}

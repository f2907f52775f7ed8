/**
 range(): the runtime's stepper, which a while loop drives, and the for loop the transpiler
 emits. Both are compared with Python's range, whose element k is start + k * step.
 */
module Ranges {
  import opened Bits
  import Duckbox

  // ---- Python's range ----

  predicate Before(v: int, stop: int, step: int) {
    if step > 0 then v < stop else v > stop
  }

  function Range(start: int, stop: int, step: int): seq<int>
    requires step != 0
    decreases if step > 0 then stop - start else start - stop
  {
    if Before(start, stop, step) then [start] + Range(start + step, stop, step) else []
  }

  function Element(start: int, step: int, k: int): int {
    start + step * k
  }

  // The definition in Python's library reference: the values start + step * k that lie before
  // stop, in that order.
  lemma {:induction false} RangeLaw(start: int, stop: int, step: int)
    requires step != 0
    ensures var r := Range(start, stop, step);
            && (forall k :: 0 <= k < |r| ==> r[k] == Element(start, step, k))
            && (forall k :: k >= 0 ==> (Before(Element(start, step, k), stop, step) <==> k < |r|))
    decreases if step > 0 then stop - start else start - stop
  {
    var r := Range(start, stop, step);
    if Before(start, stop, step) {
      RangeLaw(start + step, stop, step);
      forall k | k > 0
        ensures k < |r| ==> r[k] == Element(start, step, k)
        ensures Before(Element(start, step, k), stop, step) <==> k < |r|
      {
        assert Element(start + step, step, k - 1) == Element(start, step, k);
      }
    } else {
      forall k | k >= 0
        ensures !Before(Element(start, step, k), stop, step)
      {
        StaysBehind(start, stop, step, k);
      }
    }
  }

  // In full: the values start + step * k, for k from 0 on, as long as they are before stop in the
  // direction of the step.
  lemma RangeElements(start: int, stop: int, step: int, k: nat)
    requires step != 0
    ensures var r, v := Range(start, stop, step), start + step * k;
            && (k < |r| <==> if step > 0 then v < stop else v > stop)
            && (k < |r| ==> r[k] == v)
  {
    RangeLaw(start, stop, step);
    assert Element(start, step, k) == start + step * k;
    assert Before(Element(start, step, k), stop, step) <==> k < |Range(start, stop, step)|;
  }

  lemma StaysBehind(start: int, stop: int, step: int, k: nat)
    requires !Before(start, stop, step)
    ensures !Before(start + step * k, stop, step)
  {
    if step > 0 {
      assert step * k >= 0;
    } else {
      assert step * k <= 0;
    }
  }

  // The value that ends the range.
  function End(start: int, stop: int, step: int): int
    requires step != 0
  {
    start + step * |Range(start, stop, step)|
  }

  // ---- The stepper ----

  predicate FitsInt64(v: int) {
    -TWO63 <= v < TWO63
  }

  // The int64_t the caller keeps.
  class Cell {
    var value: Int64

    constructor (v: Int64)
      ensures value == v
    {
      value := v;
    }
  }

  // The calls that leave the cell alone and end the loop at once.
  predicate Idle(start: int, stop: int, step: int) {
    (stop > start && step <= 0) || (stop < start && step >= 0) || stop == start
  }

  method Count(start: Int64, stop: Int64, step: Int64, val: Cell) returns (more: bool)
    requires Idle(start, stop, step) || FitsInt64(val.value + step)
    modifies val
    ensures Idle(start, stop, step) ==> !more && val.value == old(val.value)
    ensures !Idle(start, stop, step) ==> val.value == old(val.value) + step && (more <==> Before(val.value, stop, step))
  {
    if stop > start && step <= 0 {
      return false;
    }
    if stop < start && step >= 0 {
      return false;
    }
    if stop == start {
      return false;
    }
    val.value := val.value + step;
    more := if step > 0 then val.value < stop else val.value > stop;
  }

  // The loop it is written for, from one step before the start. The two preconditions are that
  // this value, and the one that ends the loop, are int64_t.
  method Drive(start: Int64, stop: Int64, step: Int64) returns (seen: seq<int>)
    requires FitsInt64(start - step)
    requires step != 0 ==> FitsInt64(End(start, stop, step))
    ensures seen == if step == 0 then [] else Range(start, stop, step)
  {
    var i := new Cell(start - step);
    seen := [];
    while true
      invariant step == 0 ==> seen == []
      invariant step != 0 ==>
                  && i.value == start + step * (|seen| - 1)
                  && seen + Range(i.value + step, stop, step) == Range(start, stop, step)
      decreases if step == 0 then 0 else |Range(start, stop, step)| - |seen|
    {
      if step != 0 {
        StaysInt64(start, stop, step, |seen|);
      }
      var more := Count(start, stop, step, i);
      if !more {
        break;
      }
      assert step != 0;
      seen := seen + [i.value];
    }
  }

  // Every value up to the one that ends the loop is an int64_t.
  lemma StaysInt64(start: int, stop: int, step: int, k: nat)
    requires step != 0 && FitsInt64(start - step) && FitsInt64(End(start, stop, step))
    requires k <= |Range(start, stop, step)|
    ensures FitsInt64(start + step * k) && start + step * (k - 1) + step == start + step * k
  {
    Multiples(step, k, |Range(start, stop, step)|);
  }

  lemma Multiples(step: int, k: nat, n: nat)
    requires k <= n
    ensures step * (k - 1) == step * k - step
    ensures if step >= 0 then 0 <= step * k <= step * n else step * n <= step * k <= 0
  {
    assert step * n - step * k == step * (n - k);
  }

  // ---- The emitted for loop ----

  // How the loop goes: it has ended after these values, or is still running, or its variable
  // was to leave int64_t, which C leaves undefined.
  datatype Loop = Ended(seen: seq<int>) | Running | Overflow

  // for (i = ...; i < stop; i += step), watched for some number of turns.
  function LoopTurns(i: int, stop: int, step: int, turns: nat): Loop
    decreases turns
  {
    if i >= stop then Ended([])
    else if turns == 0 then Running
    else if !FitsInt64(i + step) then Overflow
    else Behind([i], LoopTurns(i + step, stop, step, turns - 1))
  }

  function Behind(seen: seq<int>, r: Loop): Loop {
    match r
    case Ended(rest) => Ended(seen + rest)
    case _ => r
  }

  // One turn: it ends at or behind stop, overflows where the sum is no int64_t, and else goes on.
  lemma OneTurn(i: int, stop: int, step: int, turns: nat)
    ensures i >= stop ==> LoopTurns(i, stop, step, turns) == Ended([])
    ensures i < stop ==> LoopTurns(i, stop, step, 0) == Running
    ensures i < stop && turns > 0 && (i + step < -0x8000_0000_0000_0000 || i + step > 0x7FFF_FFFF_FFFF_FFFF) ==>
              LoopTurns(i, stop, step, turns) == Overflow
    ensures i < stop && turns > 0 && -0x8000_0000_0000_0000 <= i + step <= 0x7FFF_FFFF_FFFF_FFFF ==>
              LoopTurns(i, stop, step, turns) == Behind([i], LoopTurns(i + step, stop, step, turns - 1))
  {
  }

  method ForLoop(start: Int64, stop: Int64, step: Int64, turns: nat) returns (r: Loop)
    ensures r == LoopTurns(start, stop, step, turns)
  {
    var i, left := start, turns;
    var seen := [];
    assert forall rest: seq<int> :: [] + rest == rest;
    while i < stop
      invariant 0 <= left <= turns
      invariant LoopTurns(start, stop, step, turns) == Behind(seen, LoopTurns(i, stop, step, left))
      decreases left
    {
      if left == 0 {
        return Running;
      }
      if !FitsInt64(i + step) {
        return Overflow;
      }
      assert forall rest: seq<int> :: seen + ([i] + rest) == (seen + [i]) + rest;
      seen := seen + [i];
      i := i + step;
      left := left - 1;
    }
    assert seen + [] == seen;
    r := Ended(seen);
  }

  // The loop ends, and its body has seen exactly these values.
  ghost predicate Yields(start: int, stop: int, step: int, seen: seq<int>) {
    exists turns: nat :: LoopTurns(start, stop, step, turns) == Ended(seen)
  }

  // With a positive step the loop sees the range and ends, or overflows in the turn after that.
  lemma {:induction false} UpwardLoop(start: Int64, stop: Int64, step: int)
    requires step > 0
    ensures LoopTurns(start, stop, step, |Range(start, stop, step)|)
         == if start >= stop || FitsInt64(End(start, stop, step)) then Ended(Range(start, stop, step)) else Overflow
    decreases stop - start
  {
    if start < stop {
      var next, n := start + step, |Range(start + step, stop, step)|;
      assert step * (n + 1) == step * n + step && step * n >= 0;
      assert |Range(start, stop, step)| == n + 1 && End(start, stop, step) == End(next, stop, step);
      if FitsInt64(next) {
        UpwardLoop(next, stop, step);
      }
    }
  }

  lemma {:induction false} RunsAway(i: int, stop: int, step: int, turns: nat)
    requires step <= 0 && i < stop
    ensures !LoopTurns(i, stop, step, turns).Ended?
    decreases turns
  {
    if turns > 0 && FitsInt64(i + step) {
      RunsAway(i + step, stop, step, turns - 1);
    }
  }

  // What the loop does for one number of turns it does for every larger one.
  lemma {:induction false} MoreTurns(i: int, stop: int, step: int, turns: nat, more: nat)
    requires turns <= more && LoopTurns(i, stop, step, turns) != Running
    ensures LoopTurns(i, stop, step, more) == LoopTurns(i, stop, step, turns)
    decreases turns
  {
    if i < stop && FitsInt64(i + step) {
      MoreTurns(i + step, stop, step, turns - 1, more - 1);
    }
  }

  // The emitted loop is Python's exactly for an upward step whose last increment is still an
  // int64_t, or for an empty range from its start to itself. A downward loop never runs where
  // Python's does, and never ends where Python's is empty.
  lemma ForLoopIsRange(start: Int64, stop: Int64, step: Int64)
    requires step != 0
    ensures Yields(start, stop, step, Range(start, stop, step))
            <==> (step > 0 && FitsInt64(End(start, stop, step))) || start == stop
  {
    if step > 0 {
      UpwardLoop(start, stop, step);
      if start < stop && !FitsInt64(End(start, stop, step)) {
        forall turns: nat
          ensures !LoopTurns(start, stop, step, turns).Ended?
        {
          NeverEnds(start, stop, step, |Range(start, stop, step)|, turns);
        }
      }
    } else if start < stop {
      forall turns: nat
        ensures !LoopTurns(start, stop, step, turns).Ended?
      {
        RunsAway(start, stop, step, turns);
      }
    } else {
      assert LoopTurns(start, stop, step, 0) == Ended([]);
    }
  }

  lemma NeverEnds(i: int, stop: int, step: int, n: nat, turns: nat)
    requires LoopTurns(i, stop, step, n) == Overflow
    ensures !LoopTurns(i, stop, step, turns).Ended?
  {
    if LoopTurns(i, stop, step, turns).Ended? {
      if turns <= n {
        MoreTurns(i, stop, step, turns, n);
      } else {
        MoreTurns(i, stop, step, n, turns);
      }
    }
  }

  // The last increment never overflows where start, stop and step are canonical, as they are
  // when they come out of ducks; with literals it can.
  lemma CanonicalLoop(start: int, stop: int, step: int)
    requires step > 0 && Canonical(start) && Canonical(stop) && Canonical(step)
    ensures FitsInt64(End(start, stop, step))
  {
    var n := |Range(start, stop, step)|;
    RangeLaw(start, stop, step);
    if n > 0 {
      assert Element(start, step, n - 1) == Range(start, stop, step)[n - 1];
      assert Before(Element(start, step, n - 1), stop, step);
      assert step * n == step * (n - 1) + step && step * n >= 0;
    }
  }

  // range(0, 2^63 - 1, 2^62) has two elements, and the loop overflows.
  lemma LiteralLoopOverflows()
    ensures Range(0, TWO63 - 1, TWO63 / 2) == [0, TWO63 / 2]
    ensures !Yields(0, TWO63 - 1, TWO63 / 2, [0, TWO63 / 2])
  {
    var stop, step := TWO63 - 1, TWO63 / 2;
    assert Range(2 * step, stop, step) == [];
    assert Range(step, stop, step) == [step] + Range(2 * step, stop, step);
    assert Range(0, stop, step) == [0] + Range(step, stop, step);
    ForLoopIsRange(0, stop, step);
  }

  // With canonical bounds, the duck the body gets holds the value itself.
  lemma LoopVariable(start: int, stop: int, step: int, k: nat)
    requires step != 0 && Canonical(start) && Canonical(stop) && k < |Range(start, stop, step)|
    ensures var v := Range(start, stop, step)[k];
            Canonical(v) && Duckbox.UnpackI(Duckbox.PackI(v)) == v == start + step * k
  {
    RangeLaw(start, stop, step);
    var v := Element(start, step, k);
    assert Before(v, stop, step);
    if step > 0 {
      assert step * k >= 0;
    } else {
      assert step * k <= 0;
    }
    Duckbox.UnpackPackI(v);
  }
}

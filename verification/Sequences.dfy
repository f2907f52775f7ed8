/**
 What the list and string code does to sequences: search, insertion, removal, reversal and
 repetition.
 */
module Sequences {
  import opened Bits
  import opened Wrappers

  // The first position from `from` on that holds v, or |xs|.
  function IndexOf<T(==)>(xs: seq<T>, v: T, from: int): (r: int)
    requires 0 <= from <= |xs|
    ensures from <= r <= |xs|
    ensures r < |xs| ==> xs[r] == v
    ensures forall j :: from <= j < r ==> xs[j] != v
    decreases |xs| - from
  {
    if from == |xs| || xs[from] == v then from else IndexOf(xs, v, from + 1)
  }

  // The first position of v between two bounds, which are counted from the end when negative, or
  // -1. There is none for bounds out of range or reversed.
  function Located<T(==)>(xs: seq<T>, v: T, start: int, end: int): Option<int> {
    var s, e := if start < 0 then start + |xs| else start, if end < 0 then end + |xs| else end;
    if !(-|xs| <= start <= |xs| && -|xs| <= end <= |xs|) || s > e then None
    else Some(if IndexOf(xs, v, s) < e then IndexOf(xs, v, s) else -1)
  }

  // x in front of the element at the index, which is counted from the end when negative.
  function Inserted<T>(xs: seq<T>, i: int, x: T): seq<T>
    requires -|xs| <= i < |xs|
  {
    var k := if i < 0 then i + |xs| else i;
    xs[..k] + [x] + xs[k..]
  }

  // The element at this index becomes x.
  function Replaced<T>(xs: seq<T>, i: int, x: T): seq<T>
    requires -|xs| <= i < |xs|
  {
    xs[(if i < 0 then i + |xs| else i) := x]
  }

  // The last element, if there is one, and the elements before it.
  function Last<T>(xs: seq<T>): Option<T> {
    if xs == [] then None else Some(xs[|xs| - 1])
  }

  function Popped<T>(xs: seq<T>): seq<T> {
    if xs == [] then [] else xs[..|xs| - 1]
  }

  // xs without the first x.
  function Removed<T(==)>(xs: seq<T>, x: T): seq<T>
    requires x in xs
  {
    var k := IndexOf(xs, x, 0);
    xs[..k] + xs[k + 1..]
  }

  // ---- What these do, position by position ----

  // The new element is at the position, and the others keep their order around it.
  lemma InsertedAt<T>(xs: seq<T>, i: int, k: int, x: T)
    requires (0 <= i < |xs| && k == i) || (-|xs| <= i < 0 && k == |xs| + i)
    ensures var ys := Inserted(xs, i, x);
            && |ys| == |xs| + 1 && ys[k] == x
            && (forall j :: 0 <= j < k ==> ys[j] == xs[j]) && (forall j :: k <= j < |xs| ==> ys[j + 1] == xs[j])
  {
    assert Inserted(xs, i, x) == xs[..k] + [x] + xs[k..];
  }

  lemma ReplacedAt<T>(xs: seq<T>, i: int, k: int, x: T)
    requires (0 <= i < |xs| && k == i) || (-|xs| <= i < 0 && k == |xs| + i)
    ensures var ys := Replaced(xs, i, x);
            |ys| == |xs| && ys[k] == x && forall j :: 0 <= j < |xs| && j != k ==> ys[j] == xs[j]
  {
    assert Replaced(xs, i, x) == xs[k := x];
  }

  // With bounds from -len to len, start at position s and end at position e: -1 where there is none
  // between them, and otherwise the first one. There is no answer where start is behind end.
  lemma LocatedIsFirst<T>(xs: seq<T>, v: T, start: int, s: int, end: int, e: int)
    requires (0 <= start <= |xs| && s == start) || (-|xs| <= start < 0 && s == |xs| + start)
    requires (0 <= end <= |xs| && e == end) || (-|xs| <= end < 0 && e == |xs| + end)
    ensures Located(xs, v, start, end) == None <==> s > e
    ensures s <= e ==>
              var r := Located(xs, v, start, end).value;
              && (r == -1 <==> v !in xs[s..e])
              && (r != -1 ==> s <= r < e && xs[r] == v && v !in xs[s..r])
  {
    if s <= e {
      var k := IndexOf(xs, v, s);
      if k < e {
        assert xs[s..e][k - s] == v;
      }
    }
  }

  lemma LocatedNeedsBounds<T>(xs: seq<T>, v: T, start: int, end: int)
    requires start < -|xs| || start > |xs| || end < -|xs| || end > |xs|
    ensures Located(xs, v, start, end) == None
  {
  }

  // Popping gives back what was appended.
  lemma LastOfAppended<T>(xs: seq<T>, x: T)
    ensures Last(xs + [x]) == Some(x) && Popped(xs + [x]) == xs
    ensures Last<T>([]) == None && Popped<T>([]) == []
  {
    assert (xs + [x])[..|xs|] == xs;
  }

  // The first one goes, and nothing else.
  lemma RemovedIsFirst<T>(a: seq<T>, x: T, b: seq<T>)
    requires x !in a
    ensures Removed(a + [x] + b, x) == a + b
  {
    var xs := a + [x] + b;
    assert xs[|a|] == x && forall j :: 0 <= j < |a| ==> xs[j] == a[j] && a[j] in a;
    var k := IndexOf(xs, x, 0);
    assert k == |a| && xs[..k] == a && xs[k + 1..] == b;
  }

  // ---- Reversal and repetition ----

  function Reversed<T>(xs: seq<T>): (ys: seq<T>)
    ensures |ys| == |xs|
    ensures forall k :: 0 <= k < |xs| ==> ys[k] == xs[|xs| - 1 - k]
  {
    if xs == [] then [] else Reversed(xs[1..]) + [xs[0]]
  }

  // xs repeated n times.
  function Repeat<T>(xs: seq<T>, n: nat): seq<T>
    decreases n
  {
    if n == 0 then [] else Repeat(xs, n - 1) + xs
  }

  lemma {:induction false} RepeatLength<T>(xs: seq<T>, n: nat)
    ensures |Repeat(xs, n)| == |xs| * n
    decreases n
  {
    if n > 0 {
      RepeatLength(xs, n - 1);
    }
  }

  // Element k of the repeated list is element k % |xs| of the list.
  lemma {:induction false} RepeatAt<T>(xs: seq<T>, n: nat, k: int)
    requires 0 <= k < |xs| * n
    ensures |Repeat(xs, n)| == |xs| * n && Repeat(xs, n)[k] == xs[k % |xs|]
    decreases n
  {
    RepeatLength(xs, n);
    RepeatLength(xs, n - 1);
    if k < |xs| * (n - 1) {
      RepeatAt(xs, n - 1, k);
    } else {
      DivUnique(k, |xs|, n - 1, k - |xs| * (n - 1));
    }
  }

  // Python's repetition: nothing for a negative count.
  function PythonRepeat<T>(xs: seq<T>, times: int): seq<T> {
    Repeat(xs, if times < 0 then 0 else times)
  }

  // The counts for which repeating modulo 2^32 times is repeating.
  predicate CountKept<T>(xs: seq<T>, times: int) {
    |xs| == 0 || 0 <= times < TWO32 || (times < 0 && times % TWO32 == 0)
  }

  lemma RepeatIsPython<T>(xs: seq<T>, times: int)
    ensures Repeat(xs, times % TWO32) == PythonRepeat(xs, times) <==> CountKept(xs, times)
  {
    var n, m := times % TWO32, if times < 0 then 0 else times;
    RepeatLength(xs, n);
    RepeatLength(xs, m);
    if xs != [] && n != m {
      assert |xs| * n != |xs| * m by {
        SameProduct(|xs|, n, m);
      }
    }
  }

  lemma SameProduct(a: int, n: int, m: int)
    requires a > 0 && n != m
    ensures a * n != a * m
  {
    assert a * n - a * m == a * (n - m);
  }

  // The copy after i copies starts where they end, and fits.
  lemma RepeatFits<T>(xs: seq<T>, i: nat, n: nat)
    requires i <= n
    ensures i * |xs| == |Repeat(xs, i)| <= |Repeat(xs, n)|
    ensures i < n ==> |Repeat(xs, i)| + |xs| == |Repeat(xs, i + 1)| <= |Repeat(xs, n)|
  {
    RepeatLength(xs, i);
    RepeatLength(xs, n);
    RepeatLonger(|xs|, i, n);
    if i < n {
      RepeatLength(xs, i + 1);
      RepeatLonger(|xs|, i + 1, n);
    }
  }

  lemma RepeatLonger(l: nat, i: nat, n: nat)
    requires i <= n
    ensures l * i <= l * n
  {
    assert l * n - l * i == l * (n - i);
  }

  // zs with its first elements overwritten by n copies of xs.
  ghost function Repeated<T>(xs: seq<T>, n: nat, zs: seq<T>): seq<T> {
    Repeat(xs, n) + if |Repeat(xs, n)| <= |zs| then zs[|Repeat(xs, n)|..] else []
  }

  lemma RepeatEnds<T>(xs: seq<T>, zs: seq<T>, n: nat)
    requires |zs| == |Repeat(xs, n)|
    ensures Repeated(xs, 0, zs) == zs && Repeated(xs, n, zs) == Repeat(xs, n)
  {
  }

  lemma RepeatSpliced<T>(xs: seq<T>, a: seq<T>, zs: seq<T>, i: nat)
    requires |Repeat(xs, i)| + |xs| <= |zs| && a == Repeated(xs, i, zs) && i * |xs| == |Repeat(xs, i)|
    ensures |a| == |zs| && a[..i * |xs|] + xs + a[i * |xs| + |xs|..] == Repeated(xs, i + 1, zs)
  {
    var at := |Repeat(xs, i)|;
    assert a[..at] + xs + a[at + |xs|..] == Repeated(xs, i + 1, zs);
  }
}

/**
 Lists of integers. The list code compares words bit for bit; on packed canonical integers that
 is numeric equality.
 */
module IntLists {
  import opened Bits
  import opened Sequences
  import opened Duckbox

  predicate AllCanonical(xs: seq<int>) {
    forall i :: 0 <= i < |xs| ==> Canonical(xs[i])
  }

  ghost function Packed(xs: seq<int>): (r: seq<Word>)
    requires AllCanonical(xs)
    ensures |r| == |xs| && forall i :: 0 <= i < |xs| ==> r[i] == PackI(xs[i])
  {
    seq(|xs|, i requires 0 <= i < |xs| => PackI(xs[i]))
  }

  // find and remove look for the first equal integer.
  lemma FindIsNumeric(xs: seq<int>, v: int, from: nat)
    requires AllCanonical(xs) && Canonical(v) && from <= |xs|
    ensures IndexOf(Packed(xs), PackI(v), from) == IndexOf(xs, v, from)
  {
    var r, k := IndexOf(Packed(xs), PackI(v), from), IndexOf(xs, v, from);
    if r < |xs| {
      PackIInjective(xs[r], v);
    }
    if k < |xs| {
      PackIInjective(xs[k], v);
    }
  }

  // remove succeeds on the lists that contain the integer, and deletes its first occurrence.
  lemma RemoveIsNumeric(xs: seq<int>, v: int)
    requires AllCanonical(xs) && Canonical(v)
    ensures PackI(v) in Packed(xs) <==> v in xs
    ensures v in xs ==> AllCanonical(Removed(xs, v)) && Removed(Packed(xs), PackI(v)) == Packed(Removed(xs, v))
  {
    FindIsNumeric(xs, v, 0);
    assert v in xs <==> IndexOf(xs, v, 0) < |xs|;
    assert PackI(v) in Packed(xs) <==> IndexOf(Packed(xs), PackI(v), 0) < |xs|;
  }
}

/**
 What an insertion-ordered hash map holds, apart from where it is in memory: the entries in order,
 and the links of its bucket chains by the numbers of the entries. A link may be wrong: where
 AddDict resizes, it links the new entry behind the chain end it found before.
 */
module HashTables {
  import Bits
  import opened Wrappers

  type Byte = x: int | 0 <= x < 0x100
  type Bytes = seq<Byte>
  datatype Entry = Entry(key: Bytes, value: Bytes)

  const DEFAULT_SIZE: int := 32
  const UINT_RANGE: int := 0x1_0000_0000
  const SMALL_PRIME: int := 31
  const LARGE_PRIME: int := 2654435761

  // ---- Hashing ----

  function Rolling(key: Bytes): int {
    if key == [] then 0 else (Rolling(key[..|key| - 1]) * SMALL_PRIME + key[|key| - 1]) % UINT_RANGE
  }

  function HashCode(key: Bytes): (h: int)
    ensures 0 <= h < UINT_RANGE
  {
    Rolling(key) * LARGE_PRIME % UINT_RANGE
  }

  function Bucket(key: Bytes, cap: int): (b: int)
    requires cap > 0
    ensures 0 <= b < cap
  {
    HashCode(key) % cap
  }

  // ---- What the hash is ----

  function PowerOf31(k: nat): int {
    if k == 0 then 1 else 31 * PowerOf31(k - 1)
  }

  // The bytes as the coefficients of a polynomial at 31, the first byte with the highest power.
  function Polynomial(key: Bytes): int {
    if key == [] then 0 else key[0] * PowerOf31(|key| - 1) + Polynomial(key[1..])
  }

  lemma {:induction false} PolynomialStep(key: Bytes, c: Byte)
    ensures Polynomial(key + [c]) == 31 * Polynomial(key) + c
    decreases |key|
  {
    if key == [] {
      assert ([] + [c])[1..] == [] && ([] + [c])[0] == c;
    } else {
      assert (key + [c])[1..] == key[1..] + [c];
      PolynomialStep(key[1..], c);
      assert key[0] * PowerOf31(|key|) == 31 * (key[0] * PowerOf31(|key| - 1));
    }
  }

  lemma {:induction false} RollingIsPolynomial(key: Bytes)
    ensures Rolling(key) == Polynomial(key) % 0x1_0000_0000
    decreases |key|
  {
    if key != [] {
      var p, c := key[..|key| - 1], key[|key| - 1];
      assert key == p + [c];
      RollingIsPolynomial(p);
      PolynomialStep(p, c);
      StepModulo(Polynomial(p), c);
    }
  }

  lemma StepModulo(x: int, c: int)
    ensures (x % UINT_RANGE * 31 + c) % UINT_RANGE == (31 * x + c) % UINT_RANGE
  {
    var q, y := x / UINT_RANGE, x % UINT_RANGE * 31 + c;
    Bits.DivUnique(31 * x + c, UINT_RANGE, 31 * q + y / UINT_RANGE, y % UINT_RANGE);
  }

  // The code of a key, and its bucket, from its bytes alone.
  lemma HashIsPolynomial(key: Bytes, cap: int)
    requires cap > 0
    ensures HashCode(key) == Polynomial(key) % 0x1_0000_0000 * 2654435761 % 0x1_0000_0000
    ensures Bucket(key, cap) == HashCode(key) % cap
  {
    RollingIsPolynomial(key);
  }

  // Two keys one behind the other.
  lemma {:induction false} PolynomialOfBoth(k: Bytes, l: Bytes)
    ensures Polynomial(k + l) == Polynomial(k) * PowerOf31(|l|) + Polynomial(l)
    decreases |k|
  {
    if k == [] {
      assert k + l == l;
    } else {
      PolynomialOfBoth(k[1..], l);
      assert (k + l)[1..] == k[1..] + l;
      PowersAdd(|k| - 1, |l|);
      SplitHead(k[0], PowerOf31(|k| - 1), PowerOf31(|l|), Polynomial(k[1..]));
    }
  }

  lemma {:induction false} PowersAdd(j: nat, k: nat)
    ensures PowerOf31(j + k) == PowerOf31(j) * PowerOf31(k)
    decreases j
  {
    if j > 0 {
      PowersAdd(j - 1, k);
      assert PowerOf31(j) * PowerOf31(k) == 31 * (PowerOf31(j - 1) * PowerOf31(k));
    }
  }

  lemma SplitHead(c: int, p: int, q: int, x: int)
    ensures c * (p * q) + x * q == (c * p + x) * q
  {
  }

  const LARGE_PRIME_INVERSE: int := 244002641

  // The final multiplication loses nothing: keys collide exactly when their rolling hashes do.
  lemma HashCodeIsInjectiveOnRolling(k: Bytes, l: Bytes)
    ensures HashCode(k) == HashCode(l) <==> Rolling(k) == Rolling(l)
  {
    RollingFits(k);
    RollingFits(l);
    UndoMultiply(Rolling(k));
    UndoMultiply(Rolling(l));
  }

  lemma RollingFits(k: Bytes)
    ensures 0 <= Rolling(k) < UINT_RANGE
  {
  }

  lemma UndoMultiply(h: int)
    requires 0 <= h < UINT_RANGE
    ensures (h * LARGE_PRIME % UINT_RANGE) * LARGE_PRIME_INVERSE % UINT_RANGE == h
  {
    var x := h * LARGE_PRIME;
    var q := x / UINT_RANGE;
    assert LARGE_PRIME * LARGE_PRIME_INVERSE == 150801925 * UINT_RANGE + 1;
    Bits.DivUnique((x - q * UINT_RANGE) * LARGE_PRIME_INVERSE, UINT_RANGE, h * 150801925 - q * LARGE_PRIME_INVERSE, h);
  }

  // ---- The buckets of the entries ----

  function BucketsOf(entries: seq<Entry>, cap: int): (bs: seq<int>)
    requires cap > 0
    ensures |bs| == |entries| && forall i :: 0 <= i < |bs| ==> bs[i] == Bucket(entries[i].key, cap)
  {
    seq(|entries|, i requires 0 <= i < |entries| => Bucket(entries[i].key, cap))
  }

  // The first entry from `from` on that is in bucket b, or |bs|.
  function Next(bs: seq<int>, from: int, b: int): (r: int)
    requires 0 <= from <= |bs|
    ensures from <= r <= |bs|
    ensures r < |bs| ==> bs[r] == b
    ensures forall j :: from <= j < r ==> bs[j] != b
    decreases |bs| - from
  {
    if from == |bs| || bs[from] == b then from else Next(bs, from + 1, b)
  }

  lemma NextIs(bs: seq<int>, from: int, b: int, r: int)
    requires 0 <= from <= r <= |bs|
    requires r < |bs| ==> bs[r] == b
    requires forall j :: from <= j < r ==> bs[j] != b
    ensures Next(bs, from, b) == r
  {
  }

  lemma NextAppend(bs: seq<int>, c: int, from: int, b: int)
    requires 0 <= from <= |bs|
    ensures var r := Next(bs, from, b);
            Next(bs + [c], from, b) == if r < |bs| then r else if b == c then |bs| else |bs| + 1
  {
    var r := Next(bs, from, b);
    NextIs(bs + [c], from, b, if r < |bs| then r else if b == c then |bs| else |bs| + 1);
  }

  // Entry t is the last of bucket b.
  predicate IsTail(bs: seq<int>, t: int, b: int) {
    0 <= t < |bs| && bs[t] == b && Next(bs, t + 1, b) == |bs|
  }

  // A bucket has one last entry.
  lemma OnlyTail(bs: seq<int>, i: int, t: int, b: int)
    requires IsTail(bs, t, b) && 0 <= i < |bs| && bs[i] == b && i != t
    ensures Next(bs, i + 1, b) < |bs|
  {
    assert Next(bs, 0, b) <= t;
  }

  lemma OneTail(bs: seq<int>, b: int, t: int)
    requires IsTail(bs, t, b)
    ensures LastIn(bs, b) == t
  {
    assert Next(bs, 0, b) <= t;
    var l := LastIn(bs, b);
    if l != t {
      OnlyTail(bs, l, t, b);
    }
  }

  // After appending an entry of bucket b, only its last entry gets a new successor.
  lemma LinksAfterAppend(bs: seq<int>, t: int, b: int, i: int)
    requires IsTail(bs, t, b) && 0 <= i < |bs|
    ensures var r := Next(bs, i + 1, bs[i]);
            Next(bs + [b], i + 1, bs[i]) == if i == t then |bs| else if r < |bs| then r else |bs| + 1
  {
    NextAppend(bs, b, i + 1, bs[i]);
    if i != t && bs[i] == b {
      OnlyTail(bs, i, t, b);
    }
  }

  lemma HeadAfterAppend(bs: seq<int>, t: int, b: int, c: int)
    requires IsTail(bs, t, b)
    ensures var r := Next(bs, 0, c);
            Next(bs + [b], 0, c) == if r < |bs| then r else |bs| + 1
  {
    NextAppend(bs, b, 0, c);
  }

  // The last entry of bucket b, or -1.
  function LastIn(bs: seq<int>, b: int): (t: int)
    ensures -1 <= t < |bs|
    ensures if t == -1 then Next(bs, 0, b) == |bs| else IsTail(bs, t, b)
  {
    if bs == [] then -1
    else if bs[|bs| - 1] == b then |bs| - 1
    else
      var t := LastIn(bs[..|bs| - 1], b);
      LastInPrefix(bs, b, t);
      t
  }

  lemma LastInPrefix(bs: seq<int>, b: int, t: int)
    requires bs != [] && bs[|bs| - 1] != b && -1 <= t < |bs| - 1
    requires var p := bs[..|bs| - 1]; if t == -1 then Next(p, 0, b) == |p| else IsTail(p, t, b)
    ensures if t == -1 then Next(bs, 0, b) == |bs| else IsTail(bs, t, b)
  {
    var p := bs[..|bs| - 1];
    assert bs == p + [bs[|bs| - 1]];
    NextAppend(p, bs[|bs| - 1], t + 1, b);
  }

  // ---- The abstract map ----

  predicate DistinctKeys(entries: seq<Entry>) {
    forall i, j :: 0 <= i < j < |entries| ==> entries[i].key != entries[j].key
  }

  // Put on an insertion-ordered map: a known key keeps its place, a new one goes last.
  function Put(entries: seq<Entry>, key: Bytes, value: Bytes): seq<Entry> {
    if entries == [] then [Entry(key, value)]
    else if entries[0].key == key then [Entry(key, value)] + entries[1..]
    else [entries[0]] + Put(entries[1..], key, value)
  }

  predicate HasKey(entries: seq<Entry>, key: Bytes) {
    exists i :: 0 <= i < |entries| && entries[i].key == key
  }

  lemma {:induction false} PutNew(entries: seq<Entry>, key: Bytes, value: Bytes)
    requires !HasKey(entries, key)
    ensures Put(entries, key, value) == entries + [Entry(key, value)]
  {
    if entries != [] {
      assert forall i :: 0 <= i < |entries[1..]| ==> entries[1..][i] == entries[i + 1];
      PutNew(entries[1..], key, value);
    }
  }

  lemma {:induction false} PutKnown(entries: seq<Entry>, i: int, key: Bytes, value: Bytes)
    requires 0 <= i < |entries| && entries[i].key == key && DistinctKeys(entries)
    ensures Put(entries, key, value) == entries[i := Entry(key, value)]
  {
    if i > 0 {
      assert entries[0].key != key;
      assert entries[1..][i - 1] == entries[i];
      PutKnown(entries[1..], i - 1, key, value);
    }
  }

  lemma {:induction false} PutHas(entries: seq<Entry>, key: Bytes, value: Bytes) returns (i: int)
    ensures 0 <= i < |Put(entries, key, value)| && Put(entries, key, value)[i] == Entry(key, value)
  {
    i := 0;
    if entries != [] && entries[0].key != key {
      i := PutHas(entries[1..], key, value);
      i := i + 1;
    }
  }

  lemma {:induction false} PutKeepsKey(entries: seq<Entry>, key: Bytes, value: Bytes, i: nat)
    requires i < |entries|
    ensures i < |Put(entries, key, value)| && Put(entries, key, value)[i].key == entries[i].key
  {
    if entries[0].key != key && i > 0 {
      PutKeepsKey(entries[1..], key, value, i - 1);
    }
  }

  // ---- Tables ----

  // The entries in order, for each of them the next of its chain, and the first of every bucket; -1
  // is none.
  datatype Table = Table(entries: seq<Entry>, next: seq<int>, heads: seq<int>)

  // Links lead to later entries.
  predicate Formed(t: Table) {
    && |t.next| == |t.entries| && |t.heads| > 0
    && (forall i {:trigger t.next[i]} :: 0 <= i < |t.next| ==> t.next[i] == -1 || i < t.next[i] < |t.next|)
    && (forall b {:trigger t.heads[b]} :: 0 <= b < |t.heads| ==> t.heads[b] == -1 || 0 <= t.heads[b] < |t.next|)
  }

  function Link(r: int, n: int): int {
    if r < n then r else -1
  }

  function After(bs: seq<int>, i: int): int
    requires 0 <= i < |bs|
  {
    Link(Next(bs, i + 1, bs[i]), |bs|)
  }

  // The links of chains that go through the entries of each bucket, in order.
  function NextLinks(bs: seq<int>): (r: seq<int>)
    ensures |r| == |bs| && forall i {:trigger r[i]} :: 0 <= i < |bs| ==> r[i] == After(bs, i)
  {
    seq(|bs|, i requires 0 <= i < |bs| => After(bs, i))
  }

  function HeadLinks(bs: seq<int>, cap: int): (r: seq<int>)
    requires cap > 0
    ensures |r| == cap && forall b {:trigger r[b]} :: 0 <= b < cap ==> r[b] == Link(Next(bs, 0, b), |bs|)
  {
    seq(cap, b requires 0 <= b < cap => Link(Next(bs, 0, b), |bs|))
  }

  // The table in which every entry is in the chain of its bucket, in order.
  function Rebuilt(entries: seq<Entry>, cap: int): (t: Table)
    requires cap > 0
    ensures Formed(t)
  {
    var bs := BucketsOf(entries, cap);
    Table(entries, NextLinks(bs), HeadLinks(bs, cap))
  }

  // One more entry, in an empty bucket or behind the last entry of its bucket.
  lemma LinksOfFirst(bs: seq<int>, cap: int, b: int)
    requires 0 <= b < cap && Next(bs, 0, b) == |bs|
    ensures NextLinks(bs + [b]) == NextLinks(bs) + [-1] && HeadLinks(bs + [b], cap) == HeadLinks(bs, cap)[b := |bs|]
  {
    forall i | 0 <= i < |bs|
      ensures NextLinks(bs + [b])[i] == NextLinks(bs)[i]
    {
      NextAppend(bs, b, i + 1, bs[i]);
    }
    forall c | 0 <= c < cap
      ensures HeadLinks(bs + [b], cap)[c] == if c == b then |bs| else HeadLinks(bs, cap)[c]
    {
      NextAppend(bs, b, 0, c);
    }
  }

  lemma LinksOfLast(bs: seq<int>, cap: int, p: int, b: int)
    requires 0 < cap && IsTail(bs, p, b)
    ensures NextLinks(bs + [b]) == NextLinks(bs)[p := |bs|] + [-1] && HeadLinks(bs + [b], cap) == HeadLinks(bs, cap)
  {
    forall i | 0 <= i < |bs|
      ensures NextLinks(bs + [b])[i] == if i == p then |bs| else NextLinks(bs)[i]
    {
      LinksAfterAppend(bs, p, b, i);
    }
    forall c | 0 <= c < cap
      ensures HeadLinks(bs + [b], cap)[c] == HeadLinks(bs, cap)[c]
    {
      HeadAfterAppend(bs, p, b, c);
    }
  }

  // And nowhere else.
  lemma LinksOfOther(bs: seq<int>, cap: int, p: int, b: int)
    requires 0 <= b < cap && -1 <= p < |bs| && !IsTail(bs, p, b)
    ensures NextLinks(bs + [b]) != (if p >= 0 then NextLinks(bs)[p := |bs|] else NextLinks(bs)) + [-1]
            || HeadLinks(bs + [b], cap) != HeadLinks(bs, cap)
  {
    var l := LastIn(bs, b);
    if l >= 0 {
      LinksAfterAppend(bs, l, b, l);
      assert NextLinks(bs)[l] == -1 && NextLinks(bs + [b])[l] == |bs|;
    } else {
      NextAppend(bs, b, 0, b);
      assert HeadLinks(bs, cap)[b] == -1 && HeadLinks(bs + [b], cap)[b] == |bs|;
    }
  }

  // One more entry: the first of its bucket, or linked behind entry p, or, for -1, behind none.
  function First(t: Table, e: Entry): (r: Table)
    requires Formed(t)
    ensures Formed(r) && |r.heads| == |t.heads|
  {
    Table(t.entries + [e], t.next + [-1], t.heads[Bucket(e.key, |t.heads|) := |t.entries|])
  }

  function Behind(t: Table, p: int, e: Entry): (r: Table)
    requires Formed(t) && -1 <= p < |t.entries|
    ensures Formed(r) && |r.heads| == |t.heads|
  {
    Table(t.entries + [e], (if p >= 0 then t.next[p := |t.entries|] else t.next) + [-1], t.heads)
  }

  // ---- Lookups ----

  datatype Search = Hit(at: nat) | End(at: nat)

  // Along the links from entry p: the first entry with the key, or the end of the chain.
  function SearchFrom(t: Table, p: int, key: Bytes): (r: Search)
    requires Formed(t) && 0 <= p < |t.entries|
    ensures p <= r.at < |t.entries| && (r.Hit? <==> t.entries[r.at].key == key) && (r.End? ==> t.next[r.at] == -1)
    decreases |t.entries| - p
  {
    if t.entries[p].key == key then Hit(p)
    else if t.next[p] == -1 then End(p)
    else SearchFrom(t, t.next[p], key)
  }

  function HeadOf(t: Table, key: Bytes): (h: int)
    requires Formed(t)
    ensures -1 <= h < |t.entries|
  {
    t.heads[Bucket(key, |t.heads|)]
  }

  predicate LookUp(t: Table, key: Bytes)
    requires Formed(t)
  {
    HeadOf(t, key) >= 0 && SearchFrom(t, HeadOf(t, key), key).Hit?
  }

  // The entries of the chain from entry p on, and its last.
  function Path(t: Table, p: int): (r: seq<int>)
    requires Formed(t) && -1 <= p < |t.entries|
    ensures forall i :: 0 <= i < |r| ==> p <= r[i] < |t.entries|
    decreases if p < 0 then 0 else |t.entries| - p + 1
  {
    if p == -1 then [] else [p] + Path(t, t.next[p])
  }

  function EndOf(t: Table, p: int): (r: int)
    requires Formed(t) && 0 <= p < |t.entries|
    ensures p <= r < |t.entries| && t.next[r] == -1
    decreases |t.entries| - p
  {
    if t.next[p] == -1 then p else EndOf(t, t.next[p])
  }

  // The entries of bucket b, from entry i on.
  function InBucket(bs: seq<int>, i: int, b: int): seq<int>
    requires 0 <= i <= |bs|
    decreases |bs| - i
  {
    if i == |bs| then [] else (if bs[i] == b then [i] else []) + InBucket(bs, i + 1, b)
  }

  // ---- AddDict ----

  // The length is at least capacity * 3 / 4, in unsigned arithmetic.
  predicate Loaded(n: int, cap: int) {
    n >= cap * 3 % UINT_RANGE / 4
  }

  // Three quarters, as long as three times the capacity fits 32 bits.
  lemma LoadedIsThreeQuarters(n: int, cap: int)
    requires 0 <= cap && cap % 4 == 0 && 3 * cap < 0x1_0000_0000
    ensures Loaded(n, cap) <==> 4 * n >= 3 * cap
  {
  }

  // A key that is not found in an occupied bucket of a loaded table: the one case that resizes.
  predicate Resizes(t: Table, key: Bytes)
    requires Formed(t)
  {
    HeadOf(t, key) >= 0 && SearchFrom(t, HeadOf(t, key), key).End? && Loaded(|t.entries|, |t.heads|)
  }

  // Where the node of entry p is in the table after a resize: with the same entry if it was moved
  // there; a node that was copied, being the first of its bucket, is no longer part of the table.
  function Stale(entries: seq<Entry>, cap: int, p: int): (r: int)
    requires cap > 0 && 0 <= p < |entries|
    ensures r == -1 || r == p
  {
    var bs := BucketsOf(entries, cap);
    if Next(bs, 0, bs[p]) < p then p else -1
  }

  // The entry that a call links the new one behind, if it resizes.
  function NewPlace(t: Table, key: Bytes): (r: int)
    requires Formed(t) && Resizes(t, key)
    ensures -1 <= r < |t.entries|
  {
    Stale(t.entries, 2 * |t.heads|, SearchFrom(t, HeadOf(t, key), key).at)
  }

  // What one call makes of any table, sound or not.
  function AddTo(t: Table, key: Bytes, value: Bytes): (r: Table)
    requires Formed(t)
    ensures Formed(r) && |r.heads| == if Resizes(t, key) then 2 * |t.heads| else |t.heads|
  {
    var e := Entry(key, value);
    if HeadOf(t, key) == -1 then First(t, e)
    else
      match SearchFrom(t, HeadOf(t, key), key)
      case Hit(i) => t.(entries := t.entries[i := e])
      case End(p) =>
        if Resizes(t, key) then
          Behind(Rebuilt(t.entries, 2 * |t.heads|), Stale(t.entries, 2 * |t.heads|, p), e)
        else Behind(t, p, e)
  }

  // A call adds an entry exactly when the key cannot be looked up, whether it is there or not.
  lemma AddsWhenNotFound(t: Table, key: Bytes, value: Bytes)
    requires Formed(t)
    ensures LookUp(t, key) ==> exists i :: 0 <= i < |t.entries| && t.entries[i].key == key
                                           && AddTo(t, key, value).entries == t.entries[i := Entry(key, value)]
    ensures !LookUp(t, key) ==> AddTo(t, key, value).entries == t.entries + [Entry(key, value)]
  {
    if LookUp(t, key) {
      var i := SearchFrom(t, HeadOf(t, key), key).at;
      assert t.entries[i].key == key;
    }
  }

  // ---- Sound tables ----

  // All links are as they should be, and no key is there twice.
  predicate Sound(t: Table) {
    Formed(t) && t == Rebuilt(t.entries, |t.heads|) && DistinctKeys(t.entries)
  }

  // A search in a rebuilt table goes through the entries of one bucket, in order.
  lemma {:induction false} RebuiltSearch(entries: seq<Entry>, cap: int, p: int, key: Bytes)
    requires cap > 0 && 0 <= p < |entries|
    ensures var bs, r := BucketsOf(entries, cap), SearchFrom(Rebuilt(entries, cap), p, key);
            bs[r.at] == bs[p] && (r.End? ==> IsTail(bs, r.at, bs[p]))
    decreases |entries| - p
  {
    var t, bs := Rebuilt(entries, cap), BucketsOf(entries, cap);
    var q := t.next[p];
    assert q == Link(Next(bs, p + 1, bs[p]), |bs|);
    if entries[p].key != key && q != -1 {
      RebuiltSearch(entries, cap, q, key);
    }
  }

  // It stops at the first entry with the key.
  lemma {:induction false} RebuiltSkips(entries: seq<Entry>, cap: int, p: int, key: Bytes, j: int)
    requires cap > 0 && 0 <= p <= j < |entries| && Bucket(entries[j].key, cap) == Bucket(entries[p].key, cap)
    requires var r := SearchFrom(Rebuilt(entries, cap), p, key); r.Hit? ==> j < r.at
    ensures entries[j].key != key
    decreases |entries| - p
  {
    var t, bs := Rebuilt(entries, cap), BucketsOf(entries, cap);
    var q := t.next[p];
    assert q == Link(Next(bs, p + 1, bs[p]), |bs|) && bs[j] == bs[p];
    if j > p {
      assert Next(bs, p + 1, bs[p]) <= j;
      RebuiltSkips(entries, cap, q, key, j);
    }
  }

  // The chains of a rebuilt table go through exactly the entries of their buckets, in order.
  lemma RebuiltPath(entries: seq<Entry>, cap: int, i: int, b: int)
    requires cap > 0 && 0 <= i <= |entries| && 0 <= b < cap
    ensures var bs := BucketsOf(entries, cap);
            Path(Rebuilt(entries, cap), Link(Next(bs, i, b), |bs|)) == InBucket(bs, i, b)
  {
    PathInBucket(Rebuilt(entries, cap), BucketsOf(entries, cap), i, b);
  }

  predicate Threaded(t: Table, bs: seq<int>) {
    && Formed(t) && |bs| == |t.entries|
    && forall i {:trigger After(bs, i)} :: 0 <= i < |bs| ==> t.next[i] == After(bs, i)
  }

  lemma {:induction false} PathInBucket(t: Table, bs: seq<int>, i: int, b: int)
    requires Threaded(t, bs) && 0 <= i <= |bs|
    ensures Path(t, Link(Next(bs, i, b), |bs|)) == InBucket(bs, i, b)
    decreases |bs| - i
  {
    if i < |bs| {
      NextStep(bs, i, b);
      PathInBucket(t, bs, i + 1, b);
      if bs[i] == b {
        PathStep(t, bs, i);
      }
    }
  }

  lemma PathStep(t: Table, bs: seq<int>, i: int)
    requires Threaded(t, bs) && 0 <= i < |bs|
    ensures Path(t, i) == [i] + Path(t, After(bs, i))
  {
    assert t.next[i] == After(bs, i);
  }

  lemma NextStep(bs: seq<int>, i: int, b: int)
    requires 0 <= i < |bs|
    ensures Next(bs, i, b) == if bs[i] == b then i else Next(bs, i + 1, b)
    ensures InBucket(bs, i, b) == (if bs[i] == b then [i] else []) + InBucket(bs, i + 1, b)
  {
  }

  lemma {:induction false} RebuiltEnd(entries: seq<Entry>, cap: int, p: int)
    requires cap > 0 && 0 <= p < |entries|
    ensures var bs := BucketsOf(entries, cap); IsTail(bs, EndOf(Rebuilt(entries, cap), p), bs[p])
    decreases |entries| - p
  {
    var t, bs := Rebuilt(entries, cap), BucketsOf(entries, cap);
    var q := t.next[p];
    assert q == Link(Next(bs, p + 1, bs[p]), |bs|);
    if q != -1 {
      RebuiltEnd(entries, cap, q);
    }
  }

  lemma HeadIsFirst(entries: seq<Entry>, cap: int, key: Bytes)
    requires cap > 0
    ensures var bs := BucketsOf(entries, cap);
            HeadOf(Rebuilt(entries, cap), key) == Link(Next(bs, 0, Bucket(key, cap)), |bs|)
  {
  }

  // One more entry in a rebuilt table: first in its bucket, or behind the end of its chain.
  lemma MoreRebuilds(entries: seq<Entry>, cap: int, e: Entry)
    requires cap > 0
    ensures var t, h := Rebuilt(entries, cap), HeadOf(Rebuilt(entries, cap), e.key);
            Rebuilt(entries + [e], cap) == if h == -1 then First(t, e) else Behind(t, EndOf(t, h), e)
  {
    var t, bs, b := Rebuilt(entries, cap), BucketsOf(entries, cap), Bucket(e.key, cap);
    var h := HeadOf(t, e.key);
    if h == -1 {
      FirstRebuilds(entries, cap, e);
    } else {
      assert h == Next(bs, 0, b) && bs[h] == b;
      RebuiltEnd(entries, cap, h);
      BehindRebuilds(entries, cap, EndOf(t, h), e);
    }
  }

  // In a rebuilt table every key is found, and no other.
  lemma RebuiltFinds(entries: seq<Entry>, cap: int, key: Bytes)
    requires cap > 0
    ensures LookUp(Rebuilt(entries, cap), key) <==> HasKey(entries, key)
  {
    var t, bs, b := Rebuilt(entries, cap), BucketsOf(entries, cap), Bucket(key, cap);
    if HeadOf(t, key) >= 0 {
      RebuiltSearch(entries, cap, HeadOf(t, key), key);
    }
    if HasKey(entries, key) {
      var i :| 0 <= i < |entries| && entries[i].key == key;
      assert bs[i] == b && Next(bs, 0, b) <= i;
      if !LookUp(t, key) {
        RebuiltSkips(entries, cap, HeadOf(t, key), key, i);
      }
    }
  }

  lemma SameBuckets(entries: seq<Entry>, i: int, e: Entry, cap: int)
    requires cap > 0 && 0 <= i < |entries| && entries[i].key == e.key
    ensures BucketsOf(entries[i := e], cap) == BucketsOf(entries, cap)
  {
  }

  lemma BucketsOfAppend(entries: seq<Entry>, e: Entry, cap: int)
    requires cap > 0
    ensures BucketsOf(entries + [e], cap) == BucketsOf(entries, cap) + [Bucket(e.key, cap)]
  {
  }

  // ---- How a sound table changes ----

  // An entry put first into its bucket, or behind its last entry, gives the table rebuilt with it.
  lemma FirstRebuilds(entries: seq<Entry>, cap: int, e: Entry)
    requires cap > 0 && HeadOf(Rebuilt(entries, cap), e.key) == -1
    ensures First(Rebuilt(entries, cap), e) == Rebuilt(entries + [e], cap)
  {
    BucketsOfAppend(entries, e, cap);
    LinksOfFirst(BucketsOf(entries, cap), cap, Bucket(e.key, cap));
  }

  lemma BehindRebuilds(entries: seq<Entry>, cap: int, p: int, e: Entry)
    requires cap > 0 && -1 <= p < |entries|
    ensures Behind(Rebuilt(entries, cap), p, e) == Rebuilt(entries + [e], cap)
            <==> IsTail(BucketsOf(entries, cap), p, Bucket(e.key, cap))
  {
    var bs, b := BucketsOf(entries, cap), Bucket(e.key, cap);
    BucketsOfAppend(entries, e, cap);
    if IsTail(bs, p, b) {
      LinksOfLast(bs, cap, p, b);
    } else {
      LinksOfOther(bs, cap, p, b);
    }
  }

  lemma UpdateRebuilds(entries: seq<Entry>, cap: int, i: int, e: Entry)
    requires cap > 0 && 0 <= i < |entries| && entries[i].key == e.key
    ensures Rebuilt(entries, cap).(entries := entries[i := e]) == Rebuilt(entries[i := e], cap)
  {
    SameBuckets(entries, i, e, cap);
  }

  // ---- What a wrong link does ----

  // The walk from entry p comes to entry q.
  predicate Reaches(t: Table, p: int, q: int)
    requires Formed(t) && 0 <= p < |t.entries|
    decreases |t.entries| - p
  {
    p == q || (t.next[p] != -1 && Reaches(t, t.next[p], q))
  }

  // A search that comes to entry q without a hit goes on with the entry linked behind it; any other
  // search is as before.
  lemma {:induction false} SearchBehind(t: Table, q: int, e: Entry, p: int, key: Bytes)
    requires Formed(t) && -1 <= q < |t.entries| && 0 <= p < |t.entries|
    ensures var r, r' := SearchFrom(t, p, key), SearchFrom(Behind(t, q, e), p, key);
            if Reaches(t, p, q) && !(r.Hit? && r.at <= q) then
              r' == if e.key == key then Hit(|t.entries|) else End(|t.entries|)
            else r' == r
    decreases |t.entries| - p
  {
    var t' := Behind(t, q, e);
    if Reaches(t, p, q) {
      ReachesLater(t, p, q);
    }
    if t.entries[p].key != key {
      if p == q {
        assert t'.next[p] == |t.entries| && t'.next[|t.entries|] == -1;
        assert SearchFrom(t', |t.entries|, key) == if e.key == key then Hit(|t.entries|) else End(|t.entries|);
        if t.next[p] != -1 {
          assert SearchFrom(t, t.next[p], key).at > q;
        }
      } else if t.next[p] != -1 {
        SearchBehind(t, q, e, t.next[p], key);
      }
    }
  }

  lemma {:induction false} ReachesLater(t: Table, p: int, q: int)
    requires Formed(t) && 0 <= p < |t.entries| && Reaches(t, p, q)
    ensures p <= q
    decreases |t.entries| - p
  {
    if p != q {
      ReachesLater(t, t.next[p], q);
    }
  }

  lemma {:induction false} RebuiltReaches(entries: seq<Entry>, cap: int, p: int, q: int)
    requires cap > 0 && 0 <= p < |entries| && 0 <= q < |entries|
    ensures Reaches(Rebuilt(entries, cap), p, q) <==>
            p <= q && Bucket(entries[p].key, cap) == Bucket(entries[q].key, cap)
    decreases |entries| - p
  {
    var t, bs := Rebuilt(entries, cap), BucketsOf(entries, cap);
    var n := Next(bs, p + 1, bs[p]);
    assert t.next[p] == Link(n, |bs|);
    if p != q && n < |bs| {
      RebuiltReaches(entries, cap, n, q);
    }
  }

  // In a rebuilt table with a new key linked behind entry p: in the bucket of entry p, what comes
  // behind it is cut off, and the new key is there instead; everything else is found.
  predicate Uncut(entries: seq<Entry>, cap: int, p: int, newKey: Bytes, key: Bytes)
    requires cap > 0 && -1 <= p < |entries|
  {
    if p >= 0 && Bucket(key, cap) == Bucket(entries[p].key, cap) then key == newKey || HasKey(entries[..p + 1], key)
    else HasKey(entries, key)
  }

  lemma BehindFinds(entries: seq<Entry>, cap: int, p: int, e: Entry, key: Bytes)
    requires cap > 0 && -1 <= p < |entries|
    ensures LookUp(Behind(Rebuilt(entries, cap), p, e), key) <==> Uncut(entries, cap, p, e.key, key)
  {
    if p >= 0 && Bucket(key, cap) == Bucket(entries[p].key, cap) {
      CutBehind(entries, cap, p, e, key);
    } else {
      UncutBehind(entries, cap, p, e, key);
    }
  }

  lemma UncutBehind(entries: seq<Entry>, cap: int, p: int, e: Entry, key: Bytes)
    requires cap > 0 && -1 <= p < |entries| && (p >= 0 ==> Bucket(key, cap) != Bucket(entries[p].key, cap))
    ensures LookUp(Behind(Rebuilt(entries, cap), p, e), key) <==> HasKey(entries, key)
  {
    var t, bs, b := Rebuilt(entries, cap), BucketsOf(entries, cap), Bucket(key, cap);
    var h := HeadOf(t, key);
    assert h == Link(Next(bs, 0, b), |bs|);
    if h >= 0 {
      assert bs[h] == b && (p >= 0 ==> bs[p] != b);
      assert !Reaches(t, h, p) by {
        if p >= 0 {
          RebuiltReaches(entries, cap, h, p);
          assert Bucket(entries[h].key, cap) != Bucket(entries[p].key, cap);
          assert !Reaches(t, h, p);
        } else {
          assert p == -1;
          NoneReached(t, h);
        }
      }
      SearchBehind(t, p, e, h, key);
      assert SearchFrom(Behind(t, p, e), h, key) == SearchFrom(t, h, key);
    }
    assert HeadOf(Behind(t, p, e), key) == h;
    RebuiltFinds(entries, cap, key);
  }

  lemma {:induction false} NoneReached(t: Table, p: int)
    requires Formed(t) && 0 <= p < |t.entries|
    ensures !Reaches(t, p, -1)
    decreases |t.entries| - p
  {
    if t.next[p] != -1 {
      NoneReached(t, t.next[p]);
    }
  }

  lemma CutBehind(entries: seq<Entry>, cap: int, p: int, e: Entry, key: Bytes)
    requires cap > 0 && 0 <= p < |entries| && Bucket(key, cap) == Bucket(entries[p].key, cap)
    ensures LookUp(Behind(Rebuilt(entries, cap), p, e), key) <==> key == e.key || HasKey(entries[..p + 1], key)
  {
    var t, bs, b := Rebuilt(entries, cap), BucketsOf(entries, cap), Bucket(key, cap);
    var h := HeadOf(t, key);
    assert bs[p] == b && h == Next(bs, 0, b) <= p;
    var r := SearchFrom(t, h, key);
    RebuiltReaches(entries, cap, h, p);
    SearchBehind(t, p, e, h, key);
    if r.Hit? && r.at <= p {
      assert entries[..p + 1][r.at].key == key;
    } else if HasKey(entries[..p + 1], key) {
      var j :| 0 <= j <= p && entries[..p + 1][j].key == key;
      assert bs[j] == b && h <= j;
      RebuiltSkips(entries, cap, h, key, j);
    }
  }

  // Whatever the table was: which keys are found after a call that resizes. Keys that were lost
  // before are found again, unless they are behind the entry that the new one is linked behind.
  lemma ResizeHeals(t: Table, key: Bytes, value: Bytes, k: Bytes)
    requires Formed(t) && Resizes(t, key)
    ensures LookUp(AddTo(t, key, value), k) <==> Uncut(t.entries, 2 * |t.heads|, NewPlace(t, key), key, k)
  {
    var cap, es, q := 2 * |t.heads|, t.entries, NewPlace(t, key);
    assert AddTo(t, key, value) == Behind(Rebuilt(es, cap), q, Entry(key, value));
    BehindFinds(es, cap, q, Entry(key, value), k);
  }

  lemma {:induction false} SearchReaches(t: Table, p: int, key: Bytes)
    requires Formed(t) && 0 <= p < |t.entries|
    ensures Reaches(t, p, SearchFrom(t, p, key).at)
    decreases |t.entries| - p
  {
    if t.entries[p].key != key && t.next[p] != -1 {
      SearchReaches(t, t.next[p], key);
    }
  }

  // Nothing is met behind the end of a chain.
  lemma {:induction false} SearchStops(t: Table, p: int, q: int, key: Bytes)
    requires Formed(t) && 0 <= p < |t.entries| && Reaches(t, p, q) && 0 <= q < |t.entries| && t.next[q] == -1
    ensures SearchFrom(t, p, key).at <= q
    decreases |t.entries| - p
  {
    ReachesLater(t, p, q);
    if t.entries[p].key != key && t.next[p] != -1 {
      SearchStops(t, t.next[p], q, key);
    }
  }

  lemma {:induction false} SearchUpdated(t: Table, i: int, e: Entry, p: int, key: Bytes)
    requires Formed(t) && 0 <= i < |t.entries| && e.key == t.entries[i].key && 0 <= p < |t.entries|
    ensures SearchFrom(t.(entries := t.entries[i := e]), p, key) == SearchFrom(t, p, key)
    decreases |t.entries| - p
  {
    if t.entries[p].key != key && t.next[p] != -1 {
      SearchUpdated(t, i, e, t.next[p], key);
    }
  }

  lemma {:induction false} SearchFirst(t: Table, e: Entry, p: int, key: Bytes)
    requires Formed(t) && 0 <= p < |t.entries|
    ensures SearchFrom(First(t, e), p, key) == SearchFrom(t, p, key)
    decreases |t.entries| - p
  {
    if t.entries[p].key != key && t.next[p] != -1 {
      SearchFirst(t, e, t.next[p], key);
    }
  }

  // Whatever the table is, sound or not: which keys are found after a call.
  lemma FoundAfter(t: Table, key: Bytes, value: Bytes, k: Bytes)
    requires Formed(t)
    ensures LookUp(AddTo(t, key, value), k) <==>
            if Resizes(t, key) then
              Uncut(t.entries, 2 * |t.heads|, NewPlace(t, key), key, k)
            else k == key || LookUp(t, k)
  {
    if Resizes(t, key) {
      ResizeHeals(t, key, value, k);
    } else if HeadOf(t, key) == -1 {
      FoundInSlot(t, Entry(key, value), k);
    } else if LookUp(t, key) {
      FoundUpdated(t, key, value, k);
    } else {
      FoundBehind(t, Entry(key, value), SearchFrom(t, HeadOf(t, key), key).at, k);
    }
  }

  lemma FoundInSlot(t: Table, e: Entry, k: Bytes)
    requires Formed(t) && HeadOf(t, e.key) == -1
    ensures LookUp(First(t, e), k) <==> k == e.key || LookUp(t, k)
  {
    if HeadOf(t, k) >= 0 {
      SearchFirst(t, e, HeadOf(t, k), k);
    }
  }

  lemma FoundUpdated(t: Table, key: Bytes, value: Bytes, k: Bytes)
    requires Formed(t) && LookUp(t, key)
    ensures LookUp(AddTo(t, key, value), k) <==> LookUp(t, k)
  {
    if HeadOf(t, k) >= 0 {
      SearchUpdated(t, SearchFrom(t, HeadOf(t, key), key).at, Entry(key, value), HeadOf(t, k), k);
    }
  }

  lemma FoundBehind(t: Table, e: Entry, p: int, k: Bytes)
    requires Formed(t) && HeadOf(t, e.key) >= 0 && 0 <= p && SearchFrom(t, HeadOf(t, e.key), e.key) == End(p)
    ensures LookUp(Behind(t, p, e), k) <==> k == e.key || LookUp(t, k)
  {
    SearchReaches(t, HeadOf(t, e.key), e.key);
    var h := HeadOf(t, k);
    if h >= 0 {
      SearchBehind(t, p, e, h, k);
      if Reaches(t, h, p) {
        SearchStops(t, h, p, k);
      }
    }
  }

  // ---- Sound tables and the resize ----

  // AddDict finds the end of the chain of `key` before it resizes and links the new node behind
  // it afterwards. That is right exactly when this last entry stays in the bucket of `key` and
  // is not the first of it, so that its node is moved and not copied.
  predicate SurvivesResize(entries: seq<Entry>, key: Bytes, cap: int)
    requires cap > 0
  {
    var t := LastIn(BucketsOf(entries, cap), Bucket(key, cap));
    && t >= 0 && Bucket(entries[t].key, 2 * cap) == Bucket(key, 2 * cap)
    && Next(BucketsOf(entries, 2 * cap), 0, Bucket(key, 2 * cap)) < t
  }

  // A new key in an occupied bucket of a map whose length is at least capacity * 3 / 4, in unsigned
  // arithmetic: the one case that resizes.
  predicate Grows(entries: seq<Entry>, key: Bytes, cap: int)
    requires cap > 0
  {
    && !HasKey(entries, key) && |entries| >= cap * 3 % UINT_RANGE / 4
    && LastIn(BucketsOf(entries, cap), Bucket(key, cap)) >= 0
  }

  // Keys that share a bucket of the doubled table share one of the old table.
  lemma DoubledBucket(k: Bytes, l: Bytes, cap: int)
    requires cap > 0 && Bucket(k, 2 * cap) == Bucket(l, 2 * cap)
    ensures Bucket(k, cap) == Bucket(l, cap)
  {
    ModOfMod(HashCode(k), cap);
    ModOfMod(HashCode(l), cap);
  }

  lemma ModOfMod(h: int, cap: int)
    requires h >= 0 && cap > 0
    ensures h % (2 * cap) % cap == h % cap
  {
    var q, r := h / (2 * cap), h % (2 * cap);
    assert h == 2 * cap * q + r;
    var s, d := if r < cap then r else r - cap, if r < cap then 0 else 1;
    Bits.DivUnique(h, cap, 2 * q + d, s);
    Bits.DivUnique(r, cap, d, s);
  }

  // The second key of a bucket is always lost: the node found is the first of its chain.
  lemma LoneNodeIsLost(entries: seq<Entry>, key: Bytes, cap: int)
    requires cap > 0
    requires var bs, b := BucketsOf(entries, cap), Bucket(key, cap);
             LastIn(bs, b) >= 0 && LastIn(bs, b) == Next(bs, 0, b)
    ensures !SurvivesResize(entries, key, cap)
  {
    var bs, bs2 := BucketsOf(entries, cap), BucketsOf(entries, 2 * cap);
    var j := Next(bs2, 0, Bucket(key, 2 * cap));
    if j < LastIn(bs, Bucket(key, cap)) {
      DoubledBucket(entries[j].key, key, cap);
      assert false;
    }
  }

  // In a sound table the search decides whether the key is there, and ends at the last entry of its
  // bucket.
  lemma SoundSearch(t: Table, key: Bytes)
    requires Sound(t)
    ensures LookUp(t, key) <==> HasKey(t.entries, key)
    ensures var bs, b, h := BucketsOf(t.entries, |t.heads|), Bucket(key, |t.heads|), HeadOf(t, key);
            && (h == -1 <==> LastIn(bs, b) == -1)
            && (h >= 0 && SearchFrom(t, h, key).End? ==> SearchFrom(t, h, key).at == LastIn(bs, b))
  {
    var bs, b, h := BucketsOf(t.entries, |t.heads|), Bucket(key, |t.heads|), HeadOf(t, key);
    RebuiltFinds(t.entries, |t.heads|, key);
    assert h == Link(Next(bs, 0, b), |bs|);
    if h >= 0 {
      RebuiltSearch(t.entries, |t.heads|, h, key);
      if SearchFrom(t, h, key).End? {
        OneTail(bs, b, SearchFrom(t, h, key).at);
      }
    }
  }

  lemma SoundGrows(t: Table, key: Bytes)
    requires Sound(t)
    ensures Resizes(t, key) <==> Grows(t.entries, key, |t.heads|)
  {
    SoundSearch(t, key);
  }

  // On a sound table a call is a put on an insertion-ordered map.
  lemma SoundPut(t: Table, key: Bytes, value: Bytes)
    requires Sound(t)
    ensures AddTo(t, key, value).entries == Put(t.entries, key, value)
    ensures DistinctKeys(Put(t.entries, key, value))
  {
    SoundSearch(t, key);
    PutAfter(t, Entry(key, value));
    DistinctAfter(t, Entry(key, value));
  }

  // Without a resize the table stays sound.
  lemma SoundStays(t: Table, key: Bytes, value: Bytes)
    requires Sound(t) && !Resizes(t, key)
    ensures Sound(AddTo(t, key, value))
  {
    var e, cap := Entry(key, value), |t.heads|;
    SoundSearch(t, key);
    SoundPut(t, key, value);
    if HeadOf(t, key) == -1 {
      FirstRebuilds(t.entries, cap, e);
    } else if LookUp(t, key) {
      UpdateRebuilds(t.entries, cap, SearchFrom(t, HeadOf(t, key), key).at, e);
    } else {
      BehindRebuilds(t.entries, cap, SearchFrom(t, HeadOf(t, key), key).at, e);
    }
  }

  // The last entry of an old bucket is the last of its new one.
  lemma TailStays(entries: seq<Entry>, cap: int, p: int)
    requires cap > 0 && 0 <= p < |entries| && IsTail(BucketsOf(entries, cap), p, Bucket(entries[p].key, cap))
    ensures IsTail(BucketsOf(entries, 2 * cap), p, Bucket(entries[p].key, 2 * cap))
  {
    var bs2 := BucketsOf(entries, 2 * cap);
    var r := Next(bs2, p + 1, bs2[p]);
    if r < |bs2| {
      DoubledBucket(entries[r].key, entries[p].key, cap);
      assert false;
    }
  }

  // With one, it does exactly when the chain end found before survives.
  lemma SurvivalIsExact(t: Table, key: Bytes, value: Bytes)
    requires Sound(t) && Resizes(t, key)
    ensures Sound(AddTo(t, key, value)) <==> SurvivesResize(t.entries, key, |t.heads|)
    ensures LookUp(AddTo(t, key, value), key) <==> SurvivesResize(t.entries, key, |t.heads|)
  {
    var es, cap, e := t.entries, |t.heads|, Entry(key, value);
    var p, b2 := SearchFrom(t, HeadOf(t, key), key).at, Bucket(key, 2 * cap);
    SoundSearch(t, key);
    SoundPut(t, key, value);
    TailStays(es, cap, p);
    var q := Stale(es, 2 * cap, p);
    assert IsTail(BucketsOf(es, 2 * cap), q, b2) <==> SurvivesResize(es, key, cap);
    BehindRebuilds(es, 2 * cap, q, e);
    BehindFinds(es, 2 * cap, q, e, key);
  }

  // The old keys are found either way.
  lemma OldKeysStay(t: Table, key: Bytes, value: Bytes, i: nat)
    requires Sound(t) && i < |t.entries|
    ensures LookUp(AddTo(t, key, value), t.entries[i].key)
  {
    if Resizes(t, key) {
      OldKeysMoved(t, key, value, i);
    } else {
      SoundPut(t, key, value);
      SoundStays(t, key, value);
      PutKeepsKey(t.entries, key, value, i);
      SoundSearch(AddTo(t, key, value), t.entries[i].key);
    }
  }

  lemma OldKeysMoved(t: Table, key: Bytes, value: Bytes, i: nat)
    requires Sound(t) && i < |t.entries| && Resizes(t, key)
    ensures LookUp(AddTo(t, key, value), t.entries[i].key)
  {
    var p, cap := SearchFrom(t, HeadOf(t, key), key).at, |t.heads|;
    SoundSearch(t, key);
    TailStays(t.entries, cap, p);
    UncutTail(t.entries, 2 * cap, p, key, i);
    ResizeHeals(t, key, value, t.entries[i].key);
  }

  // Behind the last entry of a bucket there is nothing to cut off.
  lemma UncutTail(entries: seq<Entry>, cap: int, p: int, newKey: Bytes, i: int)
    requires cap > 0 && 0 <= p < |entries| && IsTail(BucketsOf(entries, cap), p, Bucket(entries[p].key, cap))
    requires 0 <= i < |entries|
    ensures Uncut(entries, cap, Stale(entries, cap, p), newKey, entries[i].key)
  {
    var bs, q := BucketsOf(entries, cap), Stale(entries, cap, p);
    if q >= 0 && Bucket(entries[i].key, cap) == Bucket(entries[q].key, cap) {
      assert bs[i] == bs[p] && i <= p;
      assert entries[..q + 1][i].key == entries[i].key;
    } else {
      assert HasKey(entries, entries[i].key);
    }
  }

  // One call on a sound table, in all: it puts the entry, keeps the old keys to be found, and loses
  // the key itself, with the soundness, exactly when it resizes and the chain end does not survive.
  lemma AddToSound(t: Table, key: Bytes, value: Bytes)
    requires Sound(t)
    ensures AddTo(t, key, value).entries == Put(t.entries, key, value)
    ensures Sound(AddTo(t, key, value)) <==>
            (Grows(t.entries, key, |t.heads|) ==> SurvivesResize(t.entries, key, |t.heads|))
    ensures LookUp(AddTo(t, key, value), key) <==> Sound(AddTo(t, key, value))
    ensures forall i :: 0 <= i < |t.entries| ==> LookUp(AddTo(t, key, value), t.entries[i].key)
  {
    SoundPut(t, key, value);
    SoundGrows(t, key);
    if Resizes(t, key) {
      SurvivalIsExact(t, key, value);
    } else {
      SoundStays(t, key, value);
      SoundSearch(AddTo(t, key, value), key);
      var i := PutHas(t.entries, key, value);
    }
    forall i | 0 <= i < |t.entries|
      ensures LookUp(AddTo(t, key, value), t.entries[i].key)
    {
      OldKeysStay(t, key, value, i);
    }
  }

  // ---- Runs ----

  // The table after these calls on a new map.
  function TableOf(puts: seq<Entry>): (t: Table)
    ensures Formed(t)
  {
    if puts == [] then Rebuilt([], DEFAULT_SIZE)
    else var e := puts[|puts| - 1]; AddTo(TableOf(puts[..|puts| - 1]), e.key, e.value)
  }

  // What the puts leave in an insertion-ordered map.
  function Entries(puts: seq<Entry>): seq<Entry> {
    if puts == [] then []
    else var e := puts[|puts| - 1]; Put(Entries(puts[..|puts| - 1]), e.key, e.value)
  }

  // After put i its key cannot be looked up.
  predicate Loses(puts: seq<Entry>, i: int)
    requires 0 <= i < |puts|
  {
    !LookUp(TableOf(puts[..i + 1]), puts[i].key)
  }

  predicate LosesNone(puts: seq<Entry>) {
    forall i {:trigger Loses(puts, i)} :: 0 <= i < |puts| ==> !Loses(puts, i)
  }

  lemma LosesNoneBefore(puts: seq<Entry>, e: Entry)
    requires LosesNone(puts + [e])
    ensures LosesNone(puts) && LookUp(TableOf(puts + [e]), e.key)
  {
    var all := puts + [e];
    forall i | 0 <= i < |puts|
      ensures !Loses(puts, i)
    {
      assert all[..i + 1] == puts[..i + 1] && !Loses(all, i);
    }
    assert all[..|puts| + 1] == all && !Loses(all, |puts|);
  }

  lemma OneMorePut(puts: seq<Entry>, e: Entry)
    ensures TableOf(puts + [e]) == AddTo(TableOf(puts), e.key, e.value)
    ensures Entries(puts + [e]) == Put(Entries(puts), e.key, e.value)
  {
    assert (puts + [e])[..|puts|] == puts;
  }

  // A run that loses no key leaves a sound table of the entries of an insertion-ordered map.
  lemma {:induction false} RunIsSound(puts: seq<Entry>)
    requires LosesNone(puts)
    ensures Sound(TableOf(puts)) && TableOf(puts).entries == Entries(puts)
  {
    if puts != [] {
      var p, e := puts[..|puts| - 1], puts[|puts| - 1];
      assert p + [e] == puts;
      LosesNoneBefore(p, e);
      RunIsSound(p);
      OneMorePut(p, e);
      AddToSound(TableOf(p), e.key, e.value);
    }
  }

  // The first put that loses its key is the first that resizes without its chain end surviving. The
  // entries are right even so, and the keys from before are found.
  lemma FirstLoss(puts: seq<Entry>, e: Entry)
    requires LosesNone(puts)
    ensures var es, cap := Entries(puts), |TableOf(puts).heads|;
            !LookUp(TableOf(puts + [e]), e.key) <==> Grows(es, e.key, cap) && !SurvivesResize(es, e.key, cap)
    ensures TableOf(puts + [e]).entries == Entries(puts + [e])
    ensures forall i :: 0 <= i < |Entries(puts)| ==> LookUp(TableOf(puts + [e]), Entries(puts)[i].key)
  {
    RunIsSound(puts);
    OneMorePut(puts, e);
    AddToSound(TableOf(puts), e.key, e.value);
  }

  lemma {:induction false} PutGrows(entries: seq<Entry>, key: Bytes, value: Bytes)
    ensures |Put(entries, key, value)| == if HasKey(entries, key) then |entries| else |entries| + 1
  {
    if entries != [] && entries[0].key != key {
      PutGrows(entries[1..], key, value);
      assert HasKey(entries, key) <==> HasKey(entries[1..], key) by {
        assert forall i :: 0 < i < |entries| ==> entries[i] == entries[1..][i - 1];
      }
    } else if entries != [] {
      assert entries[0].key == key;
    }
  }

  lemma {:induction false} PutKeepsOthers(entries: seq<Entry>, key: Bytes, value: Bytes, e: Entry)
    requires e in entries && e.key != key
    ensures e in Put(entries, key, value)
  {
    if entries[0].key == key {
      assert e in entries[1..];
    } else if e != entries[0] {
      PutKeepsOthers(entries[1..], key, value, e);
    }
  }

  // The value of a key is the one put last.
  lemma {:induction false} LastPutCounts(puts: seq<Entry>, i: int)
    requires 0 <= i < |puts| && forall j :: i < j < |puts| ==> puts[j].key != puts[i].key
    ensures puts[i] in Entries(puts)
  {
    var p, e := puts[..|puts| - 1], puts[|puts| - 1];
    if i == |puts| - 1 {
      var k := PutHas(Entries(p), e.key, e.value);
    } else {
      LastPutCounts(p, i);
      PutKeepsOthers(Entries(p), e.key, e.value, puts[i]);
    }
  }

  // Any call of any run: its key is lost exactly when it resizes and is not linked into its chain.
  lemma LossIsExact(puts: seq<Entry>, i: int)
    requires 0 <= i < |puts|
    ensures var t, key := TableOf(puts[..i]), puts[i].key;
            Loses(puts, i) <==> Resizes(t, key) && !Uncut(t.entries, 2 * |t.heads|, NewPlace(t, key), key, key)
  {
    assert puts[..i + 1] == puts[..i] + [puts[i]];
    OneMorePut(puts[..i], puts[i]);
    FoundAfter(TableOf(puts[..i]), puts[i].key, puts[i].value, puts[i].key);
  }

  // Put i has a key that is there but cannot be looked up.
  predicate Repeats(puts: seq<Entry>, i: int)
    requires 0 <= i < |puts|
  {
    HasKey(TableOf(puts[..i]).entries, puts[i].key) && !LookUp(TableOf(puts[..i]), puts[i].key)
  }

  predicate RepeatsNone(puts: seq<Entry>) {
    forall i {:trigger Repeats(puts, i)} :: 0 <= i < |puts| ==> !Repeats(puts, i)
  }

  lemma RepeatsNoneBefore(puts: seq<Entry>, e: Entry)
    ensures RepeatsNone(puts + [e]) <==>
            RepeatsNone(puts) && !(HasKey(TableOf(puts).entries, e.key) && !LookUp(TableOf(puts), e.key))
  {
    var all := puts + [e];
    assert all[..|puts|] == puts && (Repeats(all, |puts|) || !Repeats(all, |puts|));
    forall i | 0 <= i < |puts|
      ensures Repeats(all, i) == Repeats(puts, i)
    {
      assert all[..i] == puts[..i];
    }
  }

  lemma DistinctAfter(t: Table, e: Entry)
    requires Formed(t)
    ensures DistinctKeys(AddTo(t, e.key, e.value).entries) <==>
            DistinctKeys(t.entries) && (HasKey(t.entries, e.key) ==> LookUp(t, e.key))
  {
    AddsWhenNotFound(t, e.key, e.value);
    if LookUp(t, e.key) {
      var i :| 0 <= i < |t.entries| && t.entries[i].key == e.key
               && AddTo(t, e.key, e.value).entries == t.entries[i := e];
      SameKeys(t.entries, i, e);
    } else {
      DistinctAppend(t.entries, e);
    }
  }

  lemma SameKeys(entries: seq<Entry>, i: int, e: Entry)
    requires 0 <= i < |entries| && entries[i].key == e.key
    ensures DistinctKeys(entries[i := e]) <==> DistinctKeys(entries)
  {
    var es := entries[i := e];
    assert forall j :: 0 <= j < |es| ==> es[j].key == entries[j].key;
  }

  lemma DistinctAppend(entries: seq<Entry>, e: Entry)
    ensures DistinctKeys(entries + [e]) <==> DistinctKeys(entries) && !HasKey(entries, e.key)
  {
    var es := entries + [e];
    if HasKey(entries, e.key) {
      var i :| 0 <= i < |entries| && entries[i].key == e.key;
      assert es[i].key == es[|entries|].key;
    }
    if DistinctKeys(es) {
      assert forall i :: 0 <= i < |entries| ==> es[i] == entries[i];
    }
  }

  lemma {:induction false} RunIsDistinct(puts: seq<Entry>)
    ensures DistinctKeys(TableOf(puts).entries) <==> RepeatsNone(puts)
  {
    if puts != [] {
      var p, e := puts[..|puts| - 1], puts[|puts| - 1];
      assert p + [e] == puts;
      RunIsDistinct(p);
      RepeatsNoneBefore(p, e);
      DistinctAfter(TableOf(p), e);
    }
  }

  // Any run, whatever it loses, leaves the entries of an insertion-ordered map exactly when no put
  // repeats a key that is lost.
  lemma RunIsMap(puts: seq<Entry>)
    ensures TableOf(puts).entries == Entries(puts) <==> RepeatsNone(puts)
  {
    EntriesDiffer(puts);
    RunIsDistinct(puts);
    if RepeatsNone(puts) {
      RunKeepsMap(puts);
    }
  }

  lemma {:induction false} RunKeepsMap(puts: seq<Entry>)
    requires RepeatsNone(puts)
    ensures TableOf(puts).entries == Entries(puts)
  {
    if puts != [] {
      var p, e := puts[..|puts| - 1], puts[|puts| - 1];
      assert p + [e] == puts;
      RepeatsNoneBefore(p, e);
      RunKeepsMap(p);
      EntriesDiffer(p);
      PutAfter(TableOf(p), e);
    }
  }

  lemma PutAfter(t: Table, e: Entry)
    requires Formed(t) && DistinctKeys(t.entries) && (HasKey(t.entries, e.key) ==> LookUp(t, e.key))
    ensures AddTo(t, e.key, e.value).entries == Put(t.entries, e.key, e.value)
  {
    AddsWhenNotFound(t, e.key, e.value);
    if LookUp(t, e.key) {
      var i :| 0 <= i < |t.entries| && t.entries[i].key == e.key
               && AddTo(t, e.key, e.value).entries == t.entries[i := e];
      PutKnown(t.entries, i, e.key, e.value);
    } else {
      PutNew(t.entries, e.key, e.value);
    }
  }

  lemma {:induction false} EntriesDiffer(puts: seq<Entry>)
    ensures DistinctKeys(Entries(puts))
  {
    if puts != [] {
      var p, e := puts[..|puts| - 1], puts[|puts| - 1];
      EntriesDiffer(p);
      if HasKey(Entries(p), e.key) {
        var i :| 0 <= i < |Entries(p)| && Entries(p)[i].key == e.key;
        PutKnown(Entries(p), i, e.key, e.value);
        SameKeys(Entries(p), i, e);
      } else {
        PutNew(Entries(p), e.key, e.value);
        DistinctAppend(Entries(p), e);
      }
    }
  }

  // ---- Capacities ----

  // Where call i doubles the capacity, it stays an unsigned.
  predicate DoublesWell(puts: seq<Entry>, i: int)
    requires 0 <= i < |puts|
  {
    var t := TableOf(puts[..i]);
    Resizes(t, puts[i].key) ==> 2 * |t.heads| < UINT_RANGE
  }

  predicate RoomToGrow(puts: seq<Entry>) {
    forall i {:trigger DoublesWell(puts, i)} :: 0 <= i < |puts| ==> DoublesWell(puts, i)
  }

  // Three quarters of the capacity are never more than twice the length, but at the start.
  predicate Fits(cap: int, len: int) {
    cap % DEFAULT_SIZE == 0 && (cap == DEFAULT_SIZE || 3 * cap <= 8 * len)
  }

  lemma DoubledFits(cap: int, len: int)
    requires Fits(cap, len) && 0 < cap && len < 0x2000_0000 && Loaded(len, cap)
    ensures Fits(2 * cap, len) && 2 * cap < UINT_RANGE
  {
    assert cap * 3 % UINT_RANGE == cap * 3;
    var k := cap / DEFAULT_SIZE;
    assert cap * 3 / 4 == 24 * k;
  }

  // Below 2^29 calls the capacity is far from 2^32, and its triple still fits.
  lemma {:induction false} CapacityBound(puts: seq<Entry>)
    requires |puts| < 0x2000_0000
    ensures |TableOf(puts).entries| <= |puts| && Fits(|TableOf(puts).heads|, |TableOf(puts).entries|)
  {
    if puts != [] {
      var p, e := puts[..|puts| - 1], puts[|puts| - 1];
      var t := TableOf(p);
      CapacityBound(p);
      AddsWhenNotFound(t, e.key, e.value);
      if Resizes(t, e.key) {
        DoubledFits(|t.heads|, |t.entries|);
      }
    }
  }

  lemma FewPutsHaveRoom(puts: seq<Entry>)
    requires |puts| <= 0x2000_0000
    ensures RoomToGrow(puts)
  {
    forall i | 0 <= i < |puts|
      ensures DoublesWell(puts, i)
    {
      var t := TableOf(puts[..i]);
      CapacityBound(puts[..i]);
      if Resizes(t, puts[i].key) {
        DoubledFits(|t.heads|, |t.entries|);
      }
    }
  }

  // The number of entries at which a map of 32 buckets is resized.
  lemma ResizeLimit()
    ensures DEFAULT_SIZE * 3 % UINT_RANGE / 4 == 24
  {
  }

  predicate Small(puts: seq<Entry>) {
    |TableOf(puts).heads| == DEFAULT_SIZE && |TableOf(puts).entries| <= |puts|
  }

  // A new map takes 24 calls without growing.
  lemma {:induction false} FewPutsLoseNone(puts: seq<Entry>)
    requires |puts| <= 24
    ensures LosesNone(puts) && Small(puts)
  {
    if puts != [] {
      var p, e := puts[..|puts| - 1], puts[|puts| - 1];
      FewPutsLoseNone(p);
      OneMoreSmall(p, e);
      assert p + [e] == puts;
    }
  }

  lemma OneMoreSmall(puts: seq<Entry>, e: Entry)
    requires |puts| < 24 && LosesNone(puts) && Small(puts)
    ensures LosesNone(puts + [e]) && Small(puts + [e])
  {
    RunIsSound(puts);
    SmallPut(TableOf(puts), e);
    OneMorePut(puts, e);
    OneMoreKept(puts, e);
  }

  lemma SmallPut(t: Table, e: Entry)
    requires Sound(t) && |t.heads| == DEFAULT_SIZE && |t.entries| < 24
    ensures var t' := AddTo(t, e.key, e.value);
            LookUp(t', e.key) && |t'.heads| == DEFAULT_SIZE && |t'.entries| <= |t.entries| + 1
  {
    ResizeLimit();
    SoundStays(t, e.key, e.value);
    AddToSound(t, e.key, e.value);
    AddsWhenNotFound(t, e.key, e.value);
  }

  lemma OneMoreKept(puts: seq<Entry>, e: Entry)
    requires LosesNone(puts) && LookUp(TableOf(puts + [e]), e.key)
    ensures LosesNone(puts + [e])
  {
    var all := puts + [e];
    forall i | 0 <= i < |all|
      ensures !Loses(all, i)
    {
      if i < |puts| {
        assert all[..i + 1] == puts[..i + 1] && !Loses(puts, i);
      } else {
        assert all[..i + 1] == all;
      }
    }
  }

  // ---- A key that is lost ----

  // The keys [0], [1], .., [23] in a map of 32 buckets, and then [32], which shares a bucket with [0].
  lemma LostKeyExample(entries: seq<Entry>, key: Bytes)
    requires |entries| == 24 && (forall i: Byte :: i < 24 ==> entries[i].key == [i]) && key == [32]
    ensures !HasKey(entries, key) && Loaded(|entries|, DEFAULT_SIZE)
    ensures LastIn(BucketsOf(entries, DEFAULT_SIZE), Bucket(key, DEFAULT_SIZE)) == 0
    ensures !SurvivesResize(entries, key, DEFAULT_SIZE)
  {
    var bs := BucketsOf(entries, DEFAULT_SIZE);
    assert Bucket(key, DEFAULT_SIZE) == 0 by {
      ByteBucket(32);
    }
    assert bs[0] == 0 by {
      ByteBucket(0);
    }
    OnlyFirstInBucketZero(entries, bs);
    LoneNodeIsLost(entries, key, DEFAULT_SIZE);
    NewKey(entries);
    ResizeLimit();
  }

  lemma NewKey(entries: seq<Entry>)
    requires |entries| == 24 && (forall i: Byte :: i < 24 ==> entries[i].key == [i])
    ensures !HasKey(entries, [32])
  {
    assert forall i: Byte :: i < 24 ==> entries[i].key[0] != 32;
  }

  lemma OnlyFirstInBucketZero(entries: seq<Entry>, bs: seq<int>)
    requires |entries| == 24 && (forall i: Byte :: i < 24 ==> entries[i].key == [i])
    requires bs == BucketsOf(entries, DEFAULT_SIZE) && bs[0] == 0
    ensures LastIn(bs, 0) == 0 && Next(bs, 0, 0) == 0
  {
    forall i | 1 <= i < 24
      ensures bs[i] != 0
    {
      ByteBucket(i);
    }
    NextIs(bs, 1, 0, 24);
    OneTail(bs, 0, 0);
  }

  lemma ByteBucket(i: Byte)
    ensures Bucket([i], DEFAULT_SIZE) == 17 * (i as int) % 32
  {
    assert [i][..0] == [];
    assert Rolling([i]) == i;
    ModThirtyTwo(i, i * LARGE_PRIME);
  }

  lemma ModThirtyTwo(i: int, h: int)
    requires h == i * LARGE_PRIME
    ensures h % UINT_RANGE % 32 == 17 * i % 32
  {
    var q, r := h / UINT_RANGE, h % UINT_RANGE;
    assert r == 17 * i + 32 * (82951117 * i - 0x800_0000 * q);
    DropMultiple(r, 17 * i, 82951117 * i - 0x800_0000 * q);
  }

  lemma DropMultiple(r: int, y: int, m: int)
    requires r == y + 32 * m
    ensures r % 32 == y % 32
  {
  }

  // Different keys are kept as they were put.
  lemma {:induction false} NewKeysStay(puts: seq<Entry>)
    requires DistinctKeys(puts)
    ensures Entries(puts) == puts
  {
    if puts != [] {
      var p, e := puts[..|puts| - 1], puts[|puts| - 1];
      NewKeysStay(p);
      PutNew(p, e.key, e.value);
    }
  }

  // The keys [0], [1], .., [23], and then [32] any number of times.
  function ByteKeys(values: seq<Bytes>): (puts: seq<Entry>)
    ensures |puts| == |values|
  {
    seq(|values|, i requires 0 <= i < |values| => Entry([if i < 24 then i else 32], values[i]))
  }

  lemma ByteKeysDiffer(values: seq<Bytes>)
    requires |values| <= 25
    ensures DistinctKeys(ByteKeys(values))
  {
    var puts := ByteKeys(values);
    assert forall i :: 0 <= i < |puts| ==> puts[i].key[0] == if i < 24 then i else 32;
  }

  // Call 25 loses its key, and finds all others.
  lemma ByteRunLoses(values: seq<Bytes>)
    requires |values| == 25
    ensures TableOf(ByteKeys(values)).entries == ByteKeys(values) && !LookUp(TableOf(ByteKeys(values)), [32])
    ensures forall i: Byte :: i < 24 ==> LookUp(TableOf(ByteKeys(values)), [i])
  {
    var puts := ByteKeys(values);
    var p, e := puts[..24], puts[24];
    assert p + [e] == puts && p == ByteKeys(values[..24]);
    ByteKeysDiffer(values);
    ByteKeysDiffer(values[..24]);
    NewKeysStay(puts);
    NewKeysStay(p);
    FewPutsLoseNone(p);
    FirstLoss(p, e);
    LostKeyExample(p, e.key);
    forall i: Byte | i < 24
      ensures LookUp(TableOf(puts), [i])
    {
      assert p[i].key == [i];
    }
  }

  // So one more call with the key puts it there a second time.
  lemma ByteRunRepeats(values: seq<Bytes>)
    requires |values| == 26
    ensures TableOf(ByteKeys(values)).entries == ByteKeys(values)
    ensures ByteKeys(values)[24].key == ByteKeys(values)[25].key == [32]
  {
    var puts := ByteKeys(values);
    var p, e := puts[..25], puts[25];
    assert p + [e] == puts && p == ByteKeys(values[..25]);
    ByteRunLoses(values[..25]);
    OneMorePut(p, e);
    AddsWhenNotFound(TableOf(p), e.key, e.value);
  }
}

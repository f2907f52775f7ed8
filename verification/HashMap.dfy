/**
 The insertion-ordered hash map in memory. The first node of a bucket lives in the bucket array
 itself, the others are linked behind it; a second chain threads through all nodes in insertion
 order. A node object stands for an address: the bucket array holds one node per slot, and a slot
 with no key is empty. The links of the nodes are those of a table, sound or not.
 */
module HashMaps {
  import opened HashTables
  import opened Wrappers

  method GetHashCode(key: Bytes) returns (h: int)
    ensures h == HashCode(key)
    ensures h == Polynomial(key) % 0x1_0000_0000 * 2654435761 % 0x1_0000_0000
  {
    HashIsPolynomial(key, 1);
    var hash := 0;
    var i := 0;
    while i < |key|
      invariant 0 <= i <= |key|
      invariant hash == Rolling(key[..i])
    {
      assert key[..i + 1][..i] == key[..i];
      hash := (hash * SMALL_PRIME + key[i]) % UINT_RANGE;
      i := i + 1;
    }
    assert key[..|key|] == key;
    h := hash * LARGE_PRIME % UINT_RANGE;
  }

  method BucketOf(key: Bytes, capacity: int) returns (b: int)
    requires capacity > 0
    ensures b == Bucket(key, capacity)
  {
    var h := GetHashCode(key);
    b := h % capacity;
  }

  // ---- Nodes and tables ----

  class Node {
    var key: Option<Bytes>
    var value: Bytes
    var bucketNext: Node?
    var orderNext: Node?

    constructor ()
      ensures key == None && bucketNext == null && orderNext == null
    {
      key := None;
      value := [];
      bucketNext := null;
      orderNext := null;
    }
  }

  function At(order: seq<Node>, i: int): Node? {
    if 0 <= i < |order| then order[i] else null
  }

  // The node of entry p, or for -1 a node of no entry.
  ghost predicate IsAt(order: seq<Node>, p: int, node: Node) {
    -1 <= p < |order| && if p >= 0 then node == order[p] else node !in order
  }

  ghost predicate Distinct(nodes: seq<Node>) {
    forall i, j :: 0 <= i < j < |nodes| ==> nodes[i] != nodes[j]
  }

  // Node i holds entry i and its order link leads to node i + 1.
  ghost predicate OrderChain(order: seq<Node>, entries: seq<Entry>)
    reads order
  {
    && |order| == |entries| && Distinct(order)
    && (forall i {:trigger order[i].key} {:trigger order[i].value} :: 0 <= i < |order| ==>
          order[i].key == Some(entries[i].key) && order[i].value == entries[i].value)
    && (forall i {:trigger order[i].orderNext} :: 0 <= i < |order| ==> order[i].orderNext == At(order, i + 1))
  }

  // The bucket links of the nodes, and the slots, are those of the table.
  ghost predicate Linked(order: seq<Node>, slots: seq<Node>, t: Table)
    reads order, slots
  {
    && Formed(t) && |order| == |t.entries| && |slots| == |t.heads|
    && (forall i {:trigger order[i].bucketNext} :: 0 <= i < |order| ==> order[i].bucketNext == At(order, t.next[i]))
    && (forall b {:trigger slots[b]} :: 0 <= b < |slots| ==>
          if t.heads[b] >= 0 then slots[b] == order[t.heads[b]] else slots[b].key == None)
  }

  ghost predicate Stores(order: seq<Node>, slots: seq<Node>, t: Table)
    reads order, slots
  {
    OrderChain(order, t.entries) && Linked(order, slots, t)
  }

  // ---- Linking one more node ----

  // The order link of the last node, if there is one, is set to the new last node.
  method LinkOrder(last: Node?, node: Node, ghost order: seq<Node>, ghost entries: seq<Entry>, ghost e: Entry)
    requires OrderChain(order, entries) && node !in order
    requires last == if order == [] then null else order[|order| - 1]
    requires node.key == Some(e.key) && node.value == e.value && node.orderNext == null
    modifies (if last == null then {} else {last})`orderNext
    ensures OrderChain(order + [node], entries + [e])
  {
    if last != null {
      last.orderNext := node;
    }
  }

  // Order links do not matter to the buckets.
  method LinkLast(last: Node?, node: Node, ghost order: seq<Node>, ghost entries: seq<Entry>, ghost e: Entry,
                  ghost nodes: seq<Node>, ghost slots: seq<Node>, ghost t: Table)
    requires OrderChain(order, entries) && node !in order && Linked(nodes, slots, t)
    requires last == if order == [] then null else order[|order| - 1]
    requires node.key == Some(e.key) && node.value == e.value && node.orderNext == null
    modifies (if last == null then {} else {last})`orderNext
    ensures OrderChain(order + [node], entries + [e]) && Linked(nodes, slots, t)
  {
    LinkOrder(last, node, order, entries, e);
  }

  // The first node of its bucket, in the slot.
  method FillSlot(slot: Node, key: Bytes, value: Bytes, ghost order: seq<Node>, ghost slots: seq<Node>, ghost t: Table)
    requires Linked(order, slots, t) && slot !in order && Distinct(slots)
    requires slot == slots[Bucket(key, |slots|)] && HeadOf(t, key) == -1
    modifies slot
    ensures slot.key == Some(key) && slot.value == value && slot.bucketNext == null && slot.orderNext == null
    ensures Linked(order + [slot], slots, First(t, Entry(key, value)))
  {
    slot.key := Some(key);
    slot.value := value;
    slot.bucketNext := null;
    slot.orderNext := null;
    ghost var order', t' := order + [slot], First(t, Entry(key, value));
    forall i | 0 <= i < |order'|
      ensures order'[i].bucketNext == At(order', t'.next[i])
    {
      if i < |order| {
        assert order[i].bucketNext == At(order, t.next[i]);
      }
    }
    forall b | 0 <= b < |slots|
      ensures if t'.heads[b] >= 0 then slots[b] == order'[t'.heads[b]] else slots[b].key == None
    {
      assert slots[b] == slot <==> b == Bucket(key, |slots|);
    }
  }

  // A node linked behind that of entry p, or behind a node that is not in the table.
  method LinkBehind(prev: Node, node: Node, ghost order: seq<Node>, ghost slots: seq<Node>, ghost t: Table,
                    ghost p: int, ghost e: Entry)
    requires Linked(order, slots, t) && Distinct(order) && node !in order && node.bucketNext == null && prev != node
    requires IsAt(order, p, prev)
    modifies prev`bucketNext
    ensures Linked(order + [node], slots, Behind(t, p, e))
  {
    prev.bucketNext := node;
    ghost var order', t' := order + [node], Behind(t, p, e);
    forall i | 0 <= i < |order'|
      ensures order'[i].bucketNext == At(order', t'.next[i])
    {
      if i < |order| && i != p {
        assert order[i] != prev && order[i].bucketNext == At(order, t.next[i]);
      }
    }
  }

  // A new node for entry e, linked behind prev and at the end of the order.
  method LinkNew(prev: Node, last: Node, e: Entry, ghost order: seq<Node>, ghost slots: seq<Node>, ghost t: Table,
                 ghost p: int)
    returns (node: Node)
    requires Stores(order, slots, t) && order != [] && last == order[|order| - 1]
    requires IsAt(order, p, prev)
    modifies prev`bucketNext, last`orderNext
    ensures fresh(node) && Stores(order + [node], slots, Behind(t, p, e))
  {
    node := new Node();
    node.key := Some(e.key);
    node.value := e.value;
    LinkLast(last, node, order, t.entries, e, order, slots, t);
    LinkBehind(prev, node, order, slots, t, p, e);
  }

  // The entry e in the empty slot of its bucket, and at the end of the order.
  method PlaceFirst(slot: Node, last: Node?, e: Entry, ghost order: seq<Node>, ghost slots: seq<Node>, ghost t: Table)
    requires Stores(order, slots, t) && Distinct(slots) && HeadOf(t, e.key) == -1
    requires last == if order == [] then null else order[|order| - 1]
    requires slot == slots[Bucket(e.key, |slots|)]
    modifies slot, (if last == null then {} else {last})`orderNext
    ensures slot !in order && Stores(order + [slot], slots, First(t, e))
  {
    assert slot !in order by {
      EmptySlot(order, slots, t, e.key);
      assert forall i :: 0 <= i < |order| ==> order[i].key != None;
    }
    FillSlot(slot, e.key, e.value, order, slots, t);
    LinkLast(last, slot, order, t.entries, e, order + [slot], slots, First(t, e));
  }

  method SetValue(node: Node, value: Bytes, ghost order: seq<Node>, ghost slots: seq<Node>, ghost t: Table,
                  ghost i: int)
    requires Stores(order, slots, t) && 0 <= i < |order| && node == order[i]
    modifies node`value
    ensures Stores(order, slots, t.(entries := t.entries[i := Entry(t.entries[i].key, value)]))
  {
    node.value := value;
  }

  // ---- Steps of the rehash ----

  // Zeroed slots.
  method NewBuckets(cap: int) returns (buckets: array<Node>)
    requires cap > 0
    ensures fresh(buckets) && buckets.Length == cap && Distinct(buckets[..])
    ensures forall b :: 0 <= b < cap ==> fresh(buckets[b]) && buckets[b].key == None
  {
    var zero := new Node();
    buckets := new Node[cap](_ => zero);
    var i := 0;
    while i < cap
      invariant 0 <= i <= cap
      invariant forall j :: 0 <= j < i ==> fresh(buckets[j]) && buckets[j].key == None
      invariant forall j, k :: 0 <= j < k < i ==> buckets[j] != buckets[k]
    {
      var node := new Node();
      assert forall j :: 0 <= j < i ==> buckets[j] != node;
      buckets[i] := node;
      i := i + 1;
    }
  }

  // The end of the chain that starts at a node.
  method FindTail(head: Node, ghost order: seq<Node>, ghost slots: seq<Node>, ghost t: Table, ghost h: int)
    returns (tail: Node)
    requires Linked(order, slots, t) && 0 <= h < |order| && head == order[h]
    ensures tail == order[EndOf(t, h)]
  {
    tail := head;
    ghost var p := h;
    while tail.bucketNext != null
      invariant 0 <= p < |order| && tail == order[p] && EndOf(t, p) == EndOf(t, h)
      decreases |order| - p
    {
      assert order[p].bucketNext == At(order, t.next[p]);
      tail := tail.bucketNext;
      p := t.next[p];
    }
    assert order[p].bucketNext == At(order, t.next[p]);
  }

  // A slot is empty exactly when its bucket is.
  lemma EmptySlot(order: seq<Node>, slots: seq<Node>, t: Table, key: Bytes)
    requires Stores(order, slots, t)
    ensures HeadOf(t, key) == -1 <==> slots[Bucket(key, |slots|)].key == None
  {
    if HeadOf(t, key) >= 0 {
      assert order[HeadOf(t, key)].key == Some(t.entries[HeadOf(t, key)].key);
    }
  }

  // cur, taken off the old chains, is linked behind the last node of its bucket.
  method PlaceLast(cur: Node, head: Node, ghost order: seq<Node>, ghost entries: seq<Entry>, ghost slots: seq<Node>,
                   ghost e: Entry)
    requires slots != [] && Stores(order, slots, Rebuilt(entries, |slots|)) && cur !in order && cur.bucketNext == null
    requires HeadOf(Rebuilt(entries, |slots|), e.key) >= 0 && head == order[HeadOf(Rebuilt(entries, |slots|), e.key)]
    modifies order
    ensures OrderChain(order, entries) && Linked(order + [cur], slots, Rebuilt(entries + [e], |slots|))
  {
    ghost var t := Rebuilt(entries, |slots|);
    MoreRebuilds(entries, |slots|, e);
    var tail := FindTail(head, order, slots, t, HeadOf(t, e.key));
    LinkBehind(tail, cur, order, slots, t, EndOf(t, HeadOf(t, e.key)), e);
  }

  // cur enters bucket b: copied into an empty slot, or linked itself behind the last node.
  method Place(cur: Node, newBuckets: array<Node>, b: int, ghost order: seq<Node>, ghost entries: seq<Entry>,
               ghost slots: seq<Node>, ghost e: Entry)
    returns (slot: Node)
    requires newBuckets[..] == slots && Distinct(slots) && slots != [] && b == Bucket(e.key, |slots|)
    requires Stores(order, slots, Rebuilt(entries, |slots|)) && cur !in order && cur !in slots
    requires cur.key == Some(e.key) && cur.value == e.value && cur.bucketNext == null && cur.orderNext == null
    modifies order, slots
    ensures slot == if HeadOf(Rebuilt(entries, |slots|), e.key) == -1 then slots[b] else cur
    ensures slot !in order && OrderChain(order, entries)
    ensures Linked(order + [slot], slots, Rebuilt(entries + [e], |slots|))
    ensures slot.key == Some(e.key) && slot.value == e.value && slot.orderNext == null
  {
    EmptySlot(order, slots, Rebuilt(entries, |slots|), e.key);
    if newBuckets[b].key == None {
      slot := newBuckets[b];
      MoreRebuilds(entries, |slots|, e);
      FillSlot(slot, cur.key.value, cur.value, order, slots, Rebuilt(entries, |slots|));
    } else {
      PlaceLast(cur, newBuckets[b], order, entries, slots, e);
      slot := cur;
    }
  }

  // One turn of the rehash loop, for the node cur of entry e.
  method Rehash(cur: Node, newLast: Node?, newBuckets: array<Node>, ghost e: Entry, ghost done: seq<Node>,
                ghost entries: seq<Entry>, ghost slots: seq<Node>)
    returns (slot: Node)
    requires slots != [] && Stores(done, slots, Rebuilt(entries, |slots|)) && Distinct(slots) && newBuckets[..] == slots
    requires newLast == if done == [] then null else done[|done| - 1]
    requires cur !in done && cur !in slots && cur.key == Some(e.key) && cur.value == e.value
    modifies cur, done, slots
    ensures slot == if HeadOf(Rebuilt(entries, |slots|), e.key) == -1 then slots[Bucket(e.key, |slots|)] else cur
    ensures Stores(done + [slot], slots, Rebuilt(entries + [e], |slots|))
  {
    cur.bucketNext := null;
    cur.orderNext := null;
    var b := BucketOf(cur.key.value, newBuckets.Length);
    slot := Place(cur, newBuckets, b, done, entries, slots, e);
    LinkLast(newLast, slot, done, entries, e, done + [slot], slots, Rebuilt(entries + [e], |slots|));
  }

  // Entries i and later still hang on the old order chain.
  ghost predicate Pending(all: seq<Node>, entries: seq<Entry>, i: int)
    reads all
  {
    && |all| == |entries| && Distinct(all)
    && (forall j {:trigger all[j].key} {:trigger all[j].value} {:trigger all[j].orderNext} :: 0 <= i <= j < |all| ==>
          all[j].key == Some(entries[j].key) && all[j].value == entries[j].value && all[j].orderNext == At(all, j + 1))
  }

  // The new nodes: the slot for the first entry of a bucket, the old node for the others.
  ghost predicate Moved(all: seq<Node>, done: seq<Node>, bs: seq<int>, slots: seq<Node>) {
    && |done| == |bs| <= |all|
    && (forall j :: 0 <= j < |done| ==>
          && 0 <= bs[j] < |slots|
          && done[j] == if Next(bs, 0, bs[j]) == j then slots[bs[j]] else all[j])
  }

  // The nodes of a map are old ones and these new ones.
  ghost predicate MadeOf(order: seq<Node>, slots: seq<Node>, order0: seq<Node>, slots0: seq<Node>, news: set<Node>) {
    && (forall x {:trigger x in order} :: x in order ==> x in order0 || x in slots0 || x in news)
    && (forall x {:trigger x in slots} :: x in slots ==> x in order0 || x in slots0 || x in news)
  }

  lemma OneMore(all: seq<Node>, moved: seq<Entry>, done: seq<Node>, slots: seq<Node>, slot: Node, e: Entry)
    requires slots != [] && Moved(all, done, BucketsOf(moved, |slots|), slots) && |done| == |moved| < |all|
    requires slot == if HeadOf(Rebuilt(moved, |slots|), e.key) == -1 then slots[Bucket(e.key, |slots|)] else all[|done|]
    ensures Moved(all, done + [slot], BucketsOf(moved + [e], |slots|), slots)
  {
    HeadIsFirst(moved, |slots|, e.key);
    MovedOneMore(all, done, BucketsOf(moved, |slots|), slots, slot, Bucket(e.key, |slots|));
    BucketsOfAppend(moved, e, |slots|);
  }

  lemma MovedOneMore(all: seq<Node>, done: seq<Node>, bs: seq<int>, slots: seq<Node>, slot: Node, b: int)
    requires Moved(all, done, bs, slots) && |done| < |all| && 0 <= b < |slots|
    requires slot == if Next(bs, 0, b) == |bs| then slots[b] else all[|done|]
    ensures Moved(all, done + [slot], bs + [b], slots)
  {
    forall j | 0 <= j < |done| + 1
      ensures Next(bs + [b], 0, (bs + [b])[j]) == j <==>
                if j < |done| then Next(bs, 0, bs[j]) == j else Next(bs, 0, b) == |bs|
    {
      NextAppend(bs, b, 0, (bs + [b])[j]);
    }
  }

  // The nodes still on the old chain are not yet part of the new table.
  ghost predicate Apart(all: seq<Node>, done: seq<Node>, slots: seq<Node>) {
    forall j :: |done| <= j < |all| ==> all[j] !in done && all[j] !in slots
  }

  lemma RestIsApart(all: seq<Node>, done: seq<Node>, bs: seq<int>, slots: seq<Node>)
    requires Moved(all, done, bs, slots) && Distinct(all) && forall b :: 0 <= b < |slots| ==> slots[b] !in all
    ensures Apart(all, done, slots) && forall x :: x in done ==> x in all || x in slots
  {
    forall j, k | |done| <= j < |all| && 0 <= k < |done|
      ensures all[j] != done[k]
    {
      assert all[j] in all;
    }
  }

  // The turn for the first of them leaves the others as they are.
  method TakeOff(cur: Node, newLast: Node?, newBuckets: array<Node>, ghost all: seq<Node>, ghost entries: seq<Entry>,
                 ghost moved: seq<Entry>, ghost done: seq<Node>, ghost slots: seq<Node>)
    returns (next: Node?, slot: Node)
    requires Pending(all, entries, |moved|) && |moved| < |all| && cur == all[|moved|] && Apart(all, done, slots)
    requires slots != [] && Stores(done, slots, Rebuilt(moved, |slots|)) && Distinct(slots) && newBuckets[..] == slots
    requires newLast == if done == [] then null else done[|done| - 1]
    modifies cur, done, slots
    ensures slot == if HeadOf(Rebuilt(moved, |slots|), entries[|moved|].key) == -1
                    then slots[Bucket(entries[|moved|].key, |slots|)] else cur
    ensures Stores(done + [slot], slots, Rebuilt(moved + [entries[|moved|]], |slots|))
    ensures Pending(all, entries, |moved| + 1) && next == At(all, |moved| + 1)
  {
    next := cur.orderNext;
    slot := Rehash(cur, newLast, newBuckets, entries[|moved|], done, moved, slots);
  }

  // The first k entries are in the new table, the others on the old chain.
  ghost predicate Halfway(all: seq<Node>, entries: seq<Entry>, k: int, done: seq<Node>, slots: seq<Node>)
    requires 0 <= k <= |entries| && slots != []
    reads all, done, slots
  {
    && Pending(all, entries, k) && |done| == k
    && Moved(all, done, BucketsOf(entries[..k], |slots|), slots) && Stores(done, slots, Rebuilt(entries[..k], |slots|))
  }

  lemma Prefixes(entries: seq<Entry>, k: nat)
    requires k <= |entries|
    ensures if k < |entries| then entries[..k + 1] == entries[..k] + [entries[k]] else entries[..k] == entries
  {
  }

  method Turn(cur: Node, newLast: Node?, newBuckets: array<Node>, ghost all: seq<Node>, ghost entries: seq<Entry>,
              ghost k: nat, ghost done: seq<Node>, ghost slots: seq<Node>)
    returns (next: Node?, slot: Node)
    requires k < |all| == |entries| && slots != [] && Halfway(all, entries, k, done, slots) && cur == all[k]
    requires Distinct(slots) && newBuckets[..] == slots && forall b :: 0 <= b < |slots| ==> slots[b] !in all
    requires newLast == if done == [] then null else done[|done| - 1]
    modifies all, slots
    ensures Halfway(all, entries, k + 1, done + [slot], slots) && next == At(all, k + 1)
  {
    ghost var moved := entries[..k];
    Prefixes(entries, k);
    RestIsApart(all, done, BucketsOf(moved, |slots|), slots);
    next, slot := TakeOff(cur, newLast, newBuckets, all, entries, moved, done, slots);
    OneMore(all, moved, done, slots, slot, entries[k]);
  }

  // The walk along the old order chain, which it overwrites behind itself.
  method RehashAll(first: Node?, newBuckets: array<Node>, ghost all: seq<Node>, ghost entries: seq<Entry>,
                   ghost slots: seq<Node>)
    returns (newFirst: Node?, newLast: Node?, ghost done: seq<Node>)
    requires Pending(all, entries, 0) && first == At(all, 0) && Distinct(slots)
    requires newBuckets[..] == slots && slots != []
    requires forall b :: 0 <= b < |slots| ==> slots[b].key == None && slots[b] !in all
    modifies all, slots
    ensures Stores(done, slots, Rebuilt(entries, |slots|)) && Moved(all, done, BucketsOf(entries, |slots|), slots)
    ensures newFirst == At(done, 0) && newLast == if done == [] then null else done[|done| - 1]
  {
    newFirst, newLast, done := null, null, [];
    var cur := first;
    ghost var k := 0;
    while cur != null
      invariant 0 <= k <= |entries| && Halfway(all, entries, k, done, slots) && cur == At(all, k)
      invariant newFirst == At(done, 0) && newLast == if done == [] then null else done[|done| - 1]
      decreases |all| - k
    {
      var next, slot := Turn(cur, newLast, newBuckets, all, entries, k, done, slots);
      if newFirst == null {
        newFirst := slot;
      }
      newLast := slot;
      cur := next;
      done, k := done + [slot], k + 1;
    }
    Prefixes(entries, k);
  }

  // A finished array of buckets with the ends of its order chain.
  ghost predicate Ready(buckets: array<Node>, first: Node?, last: Node?, order: seq<Node>, slots: seq<Node>, t: Table)
    reads buckets, order, slots
  {
    && buckets[..] == slots && Distinct(slots) && Stores(order, slots, t)
    && first == At(order, 0) && last == if order == [] then null else order[|order| - 1]
  }

  // A node that was copied is no longer part of the order; the others hold the same entries as before.
  ghost predicate Kept(all: seq<Node>, done: seq<Node>, entries: seq<Entry>, cap: int)
    requires cap > 0
  {
    && |all| == |done| == |entries|
    && forall p {:trigger Stale(entries, cap, p)} :: 0 <= p < |all| ==>
         IsAt(done, Stale(entries, cap, p), all[p])
  }

  lemma MovedIsKept(all: seq<Node>, done: seq<Node>, entries: seq<Entry>, cap: int, slots: seq<Node>)
    requires cap > 0 && |all| == |done| == |entries| && Distinct(all)
    requires Moved(all, done, BucketsOf(entries, cap), slots) && forall b :: 0 <= b < |slots| ==> slots[b] !in all
    ensures Kept(all, done, entries, cap) && MadeOf(done, slots, all, slots, {})
  {
    forall p | 0 <= p < |all|
      ensures IsAt(done, Stale(entries, cap, p), all[p])
    {
      forall j | 0 <= j < |done| && done[j] == all[p]
        ensures j == p && Stale(entries, cap, p) == p
      {
        assert all[p] in all;
      }
    }
  }

  method RehashInto(newCapacity: int, first: Node?, ghost all: seq<Node>, ghost entries: seq<Entry>)
    returns (newBuckets: array<Node>, newFirst: Node?, newLast: Node?, ghost done: seq<Node>, ghost slots: seq<Node>)
    requires newCapacity > 0 && OrderChain(all, entries) && first == At(all, 0)
    modifies all
    ensures fresh(newBuckets) && newBuckets.Length == newCapacity && forall b :: 0 <= b < |slots| ==> fresh(slots[b])
    ensures Ready(newBuckets, newFirst, newLast, done, slots, Rebuilt(entries, newCapacity))
    ensures Kept(all, done, entries, newCapacity) && MadeOf(done, slots, all, slots, {})
  {
    newBuckets := NewBuckets(newCapacity);
    slots := newBuckets[..];
    newFirst, newLast, done := RehashAll(first, newBuckets, all, entries, slots);
    MovedIsKept(all, done, entries, newCapacity, slots);
  }

  // ---- Walking a chain for a key ----

  // The node the search hits, or the last node of the chain.
  method Walk(head: Node, key: Bytes, ghost order: seq<Node>, ghost slots: seq<Node>, ghost t: Table, ghost h: int)
    returns (found: Node?, prev: Node?)
    requires Stores(order, slots, t) && 0 <= h < |order| && head == order[h]
    ensures match SearchFrom(t, h, key)
            case Hit(i) => found == order[i]
            case End(p) => found == null && prev == order[p]
  {
    var ptr: Node? := head;
    found, prev := null, null;
    ghost var p := h;
    while ptr != null
      invariant -1 <= p < |order| && ptr == At(order, p)
      invariant if p >= 0 then SearchFrom(t, p, key) == SearchFrom(t, h, key)
                else SearchFrom(t, h, key).End? && prev == order[SearchFrom(t, h, key).at]
      decreases if p < 0 then 0 else |order| - p + 1
    {
      assert order[p].bucketNext == At(order, t.next[p]) && order[p].key == Some(t.entries[p].key);
      if ptr.key == Some(key) {
        return ptr, prev;
      }
      prev := ptr;
      ptr := ptr.bucketNext;
      p := t.next[p];
    }
  }

  // ---- Walking the links ----

  ghost function Nodes(order: seq<Node>): set<Node> {
    set x | x in order
  }

  // The nodes met by following order links, at most n of them.
  ghost function FollowOrder(p: Node?, n: nat, region: set<Node>): seq<Node>
    reads region
  {
    if p == null || n == 0 || p !in region then [] else [p] + FollowOrder(p.orderNext, n - 1, region)
  }

  ghost function FollowBucket(p: Node?, n: nat, region: set<Node>): seq<Node>
    reads region
  {
    if p == null || n == 0 || p !in region then [] else [p] + FollowBucket(p.bucketNext, n - 1, region)
  }

  // The order links visit every node once, in insertion order, and end: any longer walk is the same.
  lemma {:induction false} OrderWalk(order: seq<Node>, entries: seq<Entry>, i: int, n: nat, region: set<Node>)
    requires OrderChain(order, entries) && 0 <= i <= |order| && n >= |order| - i
    requires forall x :: x in order ==> x in region
    ensures FollowOrder(At(order, i), n, region) == order[i..]
    decreases |order| - i
  {
    if i < |order| {
      assert order[i].orderNext == At(order, i + 1);
      OrderWalk(order, entries, i + 1, n - 1, region);
    }
  }

  // The nodes of these entries.
  ghost function Pick(order: seq<Node>, path: seq<int>): seq<Node>
    requires forall i :: 0 <= i < |path| ==> 0 <= path[i] < |order|
  {
    if path == [] then [] else [order[path[0]]] + Pick(order, path[1..])
  }

  // The bucket links visit exactly the entries of the chain of the table, and end.
  lemma {:induction false} BucketWalk(order: seq<Node>, slots: seq<Node>, t: Table, p: int, n: nat, region: set<Node>)
    requires Linked(order, slots, t) && -1 <= p < |order| && n >= if p < 0 then 0 else |order| - p
    requires forall x :: x in order ==> x in region
    ensures FollowBucket(At(order, p), n, region) == Pick(order, Path(t, p))
    decreases if p < 0 then 0 else |order| - p + 1
  {
    if p >= 0 {
      assert order[p].bucketNext == At(order, t.next[p]);
      BucketWalk(order, slots, t, t.next[p], n - 1, region);
      assert Path(t, p)[1..] == Path(t, t.next[p]);
    }
  }

  // A node with the key is met by following bucket links.
  ghost predicate Meets(p: Node?, key: Bytes, n: nat, region: set<Node>)
    reads region
  {
    p != null && n > 0 && p in region && (p.key == Some(key) || Meets(p.bucketNext, key, n - 1, region))
  }

  lemma {:induction false} MeetsIsSearch(order: seq<Node>, slots: seq<Node>, t: Table, p: int, key: Bytes, n: nat,
                                         region: set<Node>)
    requires Stores(order, slots, t) && 0 <= p < |order| && n >= |order| - p && forall x :: x in order ==> x in region
    ensures Meets(order[p], key, n, region) <==> SearchFrom(t, p, key).Hit?
    decreases |order| - p
  {
    assert order[p].bucketNext == At(order, t.next[p]) && order[p].key == Some(t.entries[p].key);
    if t.entries[p].key != key && t.next[p] != -1 {
      MeetsIsSearch(order, slots, t, t.next[p], key, n - 1, region);
    }
  }

  lemma MadeOfNew(order: seq<Node>, slots: seq<Node>, order0: seq<Node>)
    requires MadeOf(order, slots, order0, slots, {})
    ensures MadeOf(order, slots, order0, [], Nodes(slots))
    ensures order != [] ==> order[|order| - 1] in order0 || order[|order| - 1] in Nodes(slots)
  {
    assert order != [] ==> order[|order| - 1] in order;
  }

  lemma OneMoreMade(order: seq<Node>, slots: seq<Node>, order0: seq<Node>, news: set<Node>, node: Node)
    requires MadeOf(order, slots, order0, [], news)
    ensures forall slots0 :: MadeOf(order + [node], slots, order0, slots0, news + {node})
  {
  }

  // ---- The map ----

  class HashMap {
    var buckets: array<Node>
    var first: Node?
    var last: Node?
    var capacity: int
    var len: int
    ghost var slots: seq<Node>
    ghost var order: seq<Node>
    ghost var table: Table

    // The nodes and their links are those of the table, which need not be sound.
    ghost predicate Valid()
      reads this, buckets, order, slots
    {
      && 0 < capacity < UINT_RANGE && buckets.Length == capacity && len == |order|
      && Ready(buckets, first, last, order, slots, table)
    }

    // What a lookup of the key meets in memory.
    ghost predicate Found(key: Bytes)
      reads this, order
    {
      slots != [] && Meets(slots[Bucket(key, |slots|)], key, |order|, Nodes(order))
    }

    lemma FoundIsLookUp(key: Bytes)
      requires Valid()
      ensures Found(key) <==> LookUp(table, key)
    {
      EmptySlot(order, slots, table, key);
      var h := HeadOf(table, key);
      if h >= 0 {
        MeetsIsSearch(order, slots, table, h, key, |order|, Nodes(order));
      } else {
        assert forall i :: 0 <= i < |order| ==> order[i].key != None;
      }
    }

    constructor CreateDict()
      ensures Valid() && table == Rebuilt([], DEFAULT_SIZE)
      ensures fresh(buckets) && forall b :: 0 <= b < |slots| ==> fresh(slots[b])
    {
      var b := NewBuckets(DEFAULT_SIZE);
      buckets := b;
      first, last := null, null;
      capacity, len := DEFAULT_SIZE, 0;
      slots, order, table := b[..], [], Rebuilt([], DEFAULT_SIZE);
    }

    // The entries hang on the order chain; nothing is said of the buckets.
    ghost predicate Ordered()
      reads this, order
    {
      0 < capacity && OrderChain(order, table.entries) && len == |order| && first == At(order, 0)
    }

    // Whatever the bucket chains were: the links of the new table are as they should be.
    method ResizeDict()
      requires Ordered() && 2 * capacity < UINT_RANGE
      modifies this, order
      ensures Valid() && table == Rebuilt(old(table).entries, 2 * old(capacity)) && len == old(len)
      ensures fresh(buckets) && forall b :: 0 <= b < |slots| ==> fresh(slots[b])
      ensures Kept(old(order), order, old(table).entries, 2 * old(capacity))
      ensures MadeOf(order, slots, old(order), slots, {})
    {
      ghost var t := Rebuilt(table.entries, 2 * capacity);
      var newBuckets, newFirst, newLast, done, newSlots := RehashInto(2 * capacity, first, order, table.entries);
      Adopt(newBuckets, newFirst, newLast, done, newSlots, t);
    }

    // The map takes over a finished table.
    method Adopt(newBuckets: array<Node>, newFirst: Node?, newLast: Node?, ghost done: seq<Node>,
                 ghost newSlots: seq<Node>, ghost t: Table)
      requires 0 < newBuckets.Length < UINT_RANGE && len == |done|
      requires Ready(newBuckets, newFirst, newLast, done, newSlots, t)
      modifies this
      ensures Valid() && table == t && len == old(len) && capacity == newBuckets.Length
      ensures buckets == newBuckets && slots == newSlots && order == done
    {
      buckets := newBuckets;
      capacity := newBuckets.Length;
      first := newFirst;
      last := newLast;
      slots, order, table := newSlots, done, t;
    }

    // ---- AddDict ----

    // As written, on any map: what the table becomes.
    method AddDict(dictBuckets: array<Node>, key: Bytes, value: Bytes) returns (ghost news: set<Node>)
      requires Valid() && dictBuckets == buckets
      requires Resizes(table, key) ==> 2 * capacity < UINT_RANGE
      modifies this, order, slots
      ensures Valid() && table == AddTo(old(table), key, value)
      ensures fresh(news) && MadeOf(order, slots, old(order), old(slots), news)
    {
      var bucket := BucketOf(key, capacity);
      var ptr := dictBuckets[bucket];
      EmptySlot(order, slots, table, key);
      if ptr.key == None {
        PutInEmptyBucket(ptr, key, value);
        return {};
      }
      news := AddToChain(ptr, key, value);
    }

    // The slot of an empty bucket takes the entry; no resize is considered.
    method PutInEmptyBucket(slot: Node, key: Bytes, value: Bytes)
      requires Valid() && slot == slots[Bucket(key, capacity)] && HeadOf(table, key) == -1
      modifies this, order, slot
      ensures Valid() && table == First(old(table), Entry(key, value))
      ensures MadeOf(order, slots, old(order), old(slots), {})
    {
      PlaceFirst(slot, last, Entry(key, value), order, slots, table);
      Extend(slot, First(table, Entry(key, value)));
    }

    // The linked node becomes the last one, and the first one of an empty map.
    method Extend(node: Node, ghost t: Table)
      requires 0 < capacity < UINT_RANGE && buckets.Length == capacity && buckets[..] == slots && Distinct(slots)
      requires Stores(order + [node], slots, t) && len == |order| && first == At(order, 0)
      modifies this
      ensures Valid() && table == t && slots == old(slots) && order == old(order) + [node]
    {
      if first == null {
        first := node;
      }
      last := node;
      len := len + 1;
      order, table := order + [node], t;
    }

    // The bucket of the key is occupied.
    method AddToChain(head: Node, key: Bytes, value: Bytes) returns (ghost news: set<Node>)
      requires Valid() && HeadOf(table, key) >= 0 && head == order[HeadOf(table, key)]
      requires Resizes(table, key) ==> 2 * capacity < UINT_RANGE
      modifies this, order
      ensures Valid() && table == AddTo(old(table), key, value)
      ensures fresh(news) && MadeOf(order, slots, old(order), old(slots), news)
    {
      var found, prev := Walk(head, key, order, slots, table, HeadOf(table, key));
      ghost var p := SearchFrom(table, HeadOf(table, key), key).at;
      if found != null {
        Update(found, p, value);
        return {};
      }
      news := AddNew(prev, p, key, value);
    }

    method Update(node: Node, ghost i: int, value: Bytes)
      requires Valid() && 0 <= i < |order| && node == order[i]
      modifies this, node
      ensures Valid() && order == old(order) && slots == old(slots)
      ensures var t := old(table); table == t.(entries := t.entries[i := Entry(t.entries[i].key, value)])
    {
      SetValue(node, value, order, slots, table, i);
      table := table.(entries := table.entries[i := Entry(table.entries[i].key, value)]);
    }

    // A key that is not found, in an occupied bucket whose chain ends at prev, the node of entry p.
    method AddNew(prev: Node, ghost p: nat, key: Bytes, value: Bytes) returns (ghost news: set<Node>)
      requires Valid() && HeadOf(table, key) >= 0 && SearchFrom(table, HeadOf(table, key), key) == End(p)
      requires prev == order[p] && (Resizes(table, key) ==> 2 * capacity < UINT_RANGE)
      modifies this, order
      ensures Valid() && table == AddTo(old(table), key, value)
      ensures fresh(news) && MadeOf(order, slots, old(order), old(slots), news)
    {
      if len >= capacity * 3 % UINT_RANGE / 4 {
        news := ResizeAndAppend(prev, p, key, value);
      } else {
        var node := Append(prev, p, key, value);
        news := {node};
      }
    }

    // The common end of AddDict: a new node behind prev, the node of entry p or of none, and at the
    // end of the order.
    method Append(prev: Node, ghost p: int, key: Bytes, value: Bytes) returns (node: Node)
      requires Valid() && order != [] && IsAt(order, p, prev)
      modifies this, prev, last
      ensures Valid() && table == Behind(old(table), p, Entry(key, value))
      ensures fresh(node) && order == old(order) + [node] && slots == old(slots)
    {
      node := LinkNew(prev, last, Entry(key, value), order, slots, table, p);
      Extend(node, Behind(table, p, Entry(key, value)));
    }

    // As the code has it: the node is linked behind the chain end found before the resize.
    method ResizeAndAppend(prev: Node, ghost p: int, key: Bytes, value: Bytes) returns (ghost news: set<Node>)
      requires Valid() && 0 <= p < |order| && prev == order[p] && 2 * capacity < UINT_RANGE
      modifies this, order
      ensures Valid() && fresh(news) && MadeOf(order, slots, old(order), old(slots), news)
      ensures var es, cap := old(table).entries, 2 * old(capacity);
              table == Behind(Rebuilt(es, cap), Stale(es, cap, p), Entry(key, value))
    {
      ghost var q := Stale(table.entries, 2 * capacity, p);
      ghost var others := ResizeFor(prev, p);
      ghost var moved := order;
      var node := Append(prev, q, key, value);
      news := others + {node};
      OneMoreMade(moved, slots, old(order), others, node);
    }

    // Where the node of entry p is afterwards.
    method ResizeFor(ghost prev: Node, ghost p: int) returns (ghost news: set<Node>)
      requires Valid() && 0 <= p < |order| && prev == order[p] && 2 * capacity < UINT_RANGE
      modifies this, order
      ensures Valid() && table == Rebuilt(old(table).entries, 2 * old(capacity)) && len == old(len)
      ensures fresh(news) && MadeOf(order, slots, old(order), [], news) && (last in old(order) || last in news)
      ensures IsAt(order, Stale(old(table).entries, 2 * old(capacity), p), prev)
    {
      ResizeDict();
      news := Nodes(slots);
      MadeOfNew(order, slots, old(order));
    }

    // A zeroed bucket array and no chain.
    method ClearDict()
      requires Valid()
      modifies this, slots
      ensures Valid() && table == Rebuilt([], capacity)
      ensures capacity == old(capacity) && buckets == old(buckets) && slots == old(slots)
    {
      var i := 0;
      while i < capacity
        invariant 0 <= i <= capacity == |slots|
        invariant buckets == old(buckets) && slots == old(slots) && capacity == old(capacity)
        invariant buckets[..] == slots
        invariant forall b :: 0 <= b < i ==> slots[b].key == None
      {
        var node := buckets[i];
        node.key := None;
        node.value := [];
        node.bucketNext := null;
        node.orderNext := null;
        i := i + 1;
      }
      first, last, len := null, null, 0;
      order, table := [], Rebuilt([], capacity);
    }
  }

  // ---- Runs of AddDict on a new map ----

  lemma RoomBefore(puts: seq<Entry>)
    requires RoomToGrow(puts) && puts != []
    ensures var p, e := puts[..|puts| - 1], puts[|puts| - 1];
            RoomToGrow(p) && (Resizes(TableOf(p), e.key) ==> 2 * |TableOf(p).heads| < UINT_RANGE)
  {
    var p := puts[..|puts| - 1];
    forall i | 0 <= i < |p|
      ensures DoublesWell(p, i)
    {
      assert p[..i] == puts[..i] && DoublesWell(puts, i);
    }
    assert DoublesWell(puts, |puts| - 1);
  }

  ghost predicate Inside(nodes: seq<Node>, region: set<Node>) {
    forall i {:trigger nodes[i]} :: 0 <= i < |nodes| ==> nodes[i] in region
  }

  lemma AllInside(order: seq<Node>, slots: seq<Node>, order0: seq<Node>, slots0: seq<Node>, news: set<Node>,
                  region: set<Node>)
    requires MadeOf(order, slots, order0, slots0, news) && Inside(order0, region) && Inside(slots0, region)
    ensures Inside(order, region + news) && Inside(slots, region + news)
  {
    assert forall i :: 0 <= i < |order| ==> order[i] in order;
    assert forall i :: 0 <= i < |slots| ==> slots[i] in slots;
  }

  method PutNext(m: HashMap, e: Entry, ghost region: set<Node>) returns (ghost news: set<Node>)
    requires m.Valid() && (Resizes(m.table, e.key) ==> 2 * m.capacity < UINT_RANGE)
    requires Inside(m.order, region) && Inside(m.slots, region)
    modifies m, region
    ensures m.Valid() && m.table == AddTo(old(m.table), e.key, e.value)
    ensures fresh(news) && Inside(m.order, region + news) && Inside(m.slots, region + news)
  {
    news := m.AddDict(m.buckets, e.key, e.value);
    AllInside(m.order, m.slots, old(m.order), old(m.slots), news, region);
  }

  method NewMap() returns (m: HashMap, ghost region: set<Node>)
    ensures fresh(m) && fresh(region) && m.Valid() && m.table == Rebuilt([], DEFAULT_SIZE)
    ensures Inside(m.order, region) && Inside(m.slots, region)
  {
    m := new HashMap.CreateDict();
    region := Nodes(m.slots);
  }

  // The puts, one after the other, on a new map, whatever keys they lose.
  method Build(puts: seq<Entry>) returns (m: HashMap, ghost region: set<Node>)
    requires RoomToGrow(puts)
    ensures m.Valid() && m.table == TableOf(puts)
    ensures fresh(m) && fresh(region) && Inside(m.order, region) && Inside(m.slots, region)
    decreases |puts|
  {
    if puts == [] {
      m, region := NewMap();
    } else {
      var p, e := puts[..|puts| - 1], puts[|puts| - 1];
      RoomBefore(puts);
      m, region := Build(p);
      ghost var news := PutNext(m, e, region);
      region := region + news;
    }
  }

  // The last of these 25 calls on a new map loses its key; the others are still found.
  method LoseKey(values: seq<Bytes>) returns (m: HashMap)
    requires |values| == 25
    ensures m.Valid() && m.table.entries == ByteKeys(values) && !m.Found([32])
    ensures forall i: Byte :: i < 24 ==> m.Found([i])
  {
    var puts := ByteKeys(values);
    FewPutsHaveRoom(puts);
    ByteRunLoses(values);
    ghost var region;
    m, region := Build(puts);
    m.FoundIsLookUp([32]);
    forall i: Byte | i < 24
      ensures m.Found([i])
    {
      m.FoundIsLookUp([i]);
    }
  }

  // And one more call with that key puts it there a second time.
  method RepeatKey(values: seq<Bytes>) returns (m: HashMap)
    requires |values| == 26
    ensures m.Valid() && m.table.entries == ByteKeys(values) && !DistinctKeys(m.table.entries)
  {
    var puts := ByteKeys(values);
    FewPutsHaveRoom(puts);
    ByteRunRepeats(values);
    ghost var region;
    m, region := Build(puts);
    assert puts[24].key == puts[25].key;
  }
}

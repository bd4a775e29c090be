/**
 * The library's containers (src/adt.c): a doubly linked list used both as
 * a stack and as a queue, a binary search tree that deletes lazily by
 * marking nodes unused, a growable byte buffer, and a chained hash table.
 * Pointers become values: a list is the sequence of its nodes from head to
 * tail, a tree is a datatype, and a NULL key or datum is `None`.
 * Allocation failure is not modelled, so every insertion succeeds.
 */
module Adt {
  import opened Wrappers

  // ---------------------------------------------------------------------
  // List (stack and queue)
  // ---------------------------------------------------------------------

  /** A list node: its key and its datum, either of which may be NULL. */
  datatype Entry<K, D> = Entry(key: Option<K>, data: Option<D>)

  /** A list, head first. */
  type List<K, D> = seq<Entry<K, D>>

  /** `edi_list_push_key`: a new node at the tail. */
  function PushKey<K, D>(l: List<K, D>, key: Option<K>, data: Option<D>): (r: List<K, D>)
    ensures |r| == |l| + 1 && r[..|l|] == l && r[|l|] == Entry(key, data)
  {
    l + [Entry(key, data)]
  }

  /** `edi_list_push`: push with a NULL key. */
  function Push<K, D>(l: List<K, D>, data: Option<D>): (r: List<K, D>)
    ensures |r| == |l| + 1 && r[..|l|] == l && r[|l|].data == data
  {
    PushKey(l, None, data)
  }

  /** `edi_list_pop`: removes the tail and yields its datum; NULL and no change on an empty list. */
  function Pop<K, D>(l: List<K, D>): (r: (List<K, D>, Option<D>))
    ensures |l| == 0 ==> r == (l, None)
    ensures |l| > 0 ==> |r.0| == |l| - 1 && r.0 + [l[|l| - 1]] == l && r.1 == l[|l| - 1].data
  {
    if |l| == 0 then (l, None) else (l[..|l| - 1], l[|l| - 1].data)
  }

  /** `edi_list_peek`: the tail's datum, NULL for an empty list. */
  function Peek<K, D>(l: List<K, D>): (r: Option<D>)
    ensures r == Pop(l).1
  {
    if |l| == 0 then None else l[|l| - 1].data
  }

  /** `edi_list_shift`: removes the head and yields its datum; NULL and no change on an empty list. */
  function Shift<K, D>(l: List<K, D>): (r: (List<K, D>, Option<D>))
    ensures |l| == 0 ==> r == (l, None)
    ensures |l| > 0 ==> |r.0| == |l| - 1 && [l[0]] + r.0 == l && r.1 == l[0].data
  {
    if |l| == 0 then (l, None) else (l[1..], l[0].data)
  }

  /** `edi_list_unshift_key`: a new node at the head. */
  function UnshiftKey<K, D>(l: List<K, D>, key: Option<K>, data: Option<D>): (r: List<K, D>)
    ensures |r| == |l| + 1 && r[1..] == l && r[0] == Entry(key, data)
  {
    [Entry(key, data)] + l
  }

  /** Pop undoes push: the stack discipline. */
  lemma PopAfterPush<K, D>(l: List<K, D>, key: Option<K>, data: Option<D>)
    ensures Pop(PushKey(l, key, data)) == (l, data)
  {
  }

  /** Shift undoes unshift. */
  lemma ShiftAfterUnshift<K, D>(l: List<K, D>, key: Option<K>, data: Option<D>)
    ensures Shift(UnshiftKey(l, key, data)) == (l, data)
  {
  }

  /**
   * Push at the tail and shift from the head form a queue: on a non-empty
   * list, shifting after a push yields the old head, and the pushed datum
   * stays last.
   */
  lemma QueueOrder<K, D>(l: List<K, D>, data: Option<D>)
    requires |l| > 0
    ensures Shift(Push(l, data)) == (Push(Shift(l).0, data), Shift(l).1)
  {
    assert (l + [Entry(None, data)])[1..] == l[1..] + [Entry(None, data)];
  }

  /** The non-NULL data of a list, head first. */
  function LiveData<K, D>(l: List<K, D>): seq<D> {
    if |l| == 0 then []
    else EntryData(l[0]) + LiveData(l[1..])
  }

  /** A node's datum, or nothing for NULL. */
  function EntryData<K, D>(e: Entry<K, D>): seq<D> {
    if e.data.Some? then [e.data.value] else []
  }

  /**
   * `edi_list_drain`: shifts every node off; yields the data handed to the
   * free function, in order of removal.
   */
  function Drain<K, D>(l: List<K, D>): (r: (List<K, D>, seq<D>))
    ensures r.0 == []
    ensures r.1 == LiveData(l)
    decreases |l|
  {
    if |l| == 0 then (l, [])
    else
      var (rest, d) := Shift(l);
      var (empty, freed) := Drain(rest);
      (empty, (if d.Some? then [d.value] else []) + freed)
  }

  /**
   * `edi_list_clear`: pops every node off; yields the data handed to the
   * free function, in order of removal.
   */
  function Clear<K, D>(l: List<K, D>): (r: (List<K, D>, seq<D>))
    ensures r.0 == []
    decreases |l|
  {
    if |l| == 0 then (l, [])
    else
      var (rest, d) := Pop(l);
      var (empty, freed) := Clear(rest);
      (empty, (if d.Some? then [d.value] else []) + freed)
  }

  function Reverse<T>(s: seq<T>): (r: seq<T>)
    ensures |r| == |s|
    ensures forall i :: 0 <= i < |s| ==> r[i] == s[|s| - 1 - i]
  {
    if |s| == 0 then [] else Reverse(s[1..]) + [s[0]]
  }

  lemma {:induction false} LiveDataAppend<K, D>(a: List<K, D>, b: List<K, D>)
    ensures LiveData(a + b) == LiveData(a) + LiveData(b)
    decreases |a|
  {
    if |a| == 0 {
      assert a + b == b;
    } else {
      assert (a + b)[0] == a[0] && (a + b)[1..] == a[1..] + b;
      LiveDataAppend(a[1..], b);
    }
  }

  lemma ReverseAppend<T>(a: seq<T>, b: seq<T>)
    ensures Reverse(a + b) == Reverse(b) + Reverse(a)
  {
  }

  /** Clearing frees the same data as draining, in the opposite order. */
  lemma {:induction false} ClearIsReversedDrain<K, D>(l: List<K, D>)
    ensures Clear(l).1 == Reverse(Drain(l).1)
    decreases |l|
  {
    if |l| > 0 {
      var init, last := l[..|l| - 1], l[|l| - 1];
      assert l == init + [last];
      ClearIsReversedDrain(init);
      LiveDataAppend(init, [last]);
      assert LiveData([last]) == (if last.data.Some? then [last.data.value] else []) by {
        assert [last][1..] == [];
      }
      ReverseAppend(LiveData(init), LiveData([last]));
    }
  }

  /**
   * `edi_list_exists`: the position of the first node, from the head,
   * whose key compares equal (`cmp(node key, key) == 0`).
   */
  function FindIndex<K, D>(l: List<K, D>, key: Option<K>, cmp: (Option<K>, Option<K>) -> int): (r: Option<nat>)
    ensures r.Some? ==> r.value < |l| && cmp(l[r.value].key, key) == 0
    ensures r.Some? ==> forall j :: 0 <= j < r.value ==> cmp(l[j].key, key) != 0
    ensures r.None? ==> forall j :: 0 <= j < |l| ==> cmp(l[j].key, key) != 0
  {
    if |l| == 0 then None
    else if cmp(l[0].key, key) == 0 then Some(0)
    else
      match FindIndex(l[1..], key, cmp)
      case None => None
      case Some(i) => Some(i + 1)
  }

  /** `edi_list_find`: the datum of the first node whose key compares equal, else NULL. */
  function Find<K, D>(l: List<K, D>, key: Option<K>, cmp: (Option<K>, Option<K>) -> int): (r: Option<D>)
    ensures (forall j :: 0 <= j < |l| ==> cmp(l[j].key, key) != 0) ==> r.None?
    ensures forall i :: (0 <= i < |l| && cmp(l[i].key, key) == 0
                         && forall j :: 0 <= j < i ==> cmp(l[j].key, key) != 0) ==> r == l[i].data
  {
    match FindIndex(l, key, cmp)
    case None => None
    case Some(i) => l[i].data
  }

  /** Pushing at the tail never shadows an earlier match: the new node is found only when nothing before it matches. */
  lemma FindAfterPush<K, D>(l: List<K, D>, k: Option<K>, d: Option<D>, key: Option<K>,
                            cmp: (Option<K>, Option<K>) -> int)
    ensures Find(PushKey(l, k, d), key, cmp)
      == if FindIndex(l, key, cmp).Some? then Find(l, key, cmp)
         else if cmp(k, key) == 0 then d else None
  {
    var r := PushKey(l, k, d);
    match FindIndex(l, key, cmp)
    case Some(i) =>
      assert r[i] == l[i];
      assert forall j :: 0 <= j < i ==> r[j] == l[j];
    case None =>
      assert forall j :: 0 <= j < |l| ==> r[j] == l[j];
  }

  // ---------------------------------------------------------------------
  // Tree (binary search tree with lazy deletion)
  // ---------------------------------------------------------------------

  /** A node keeps its key when deleted: `used` is cleared and its datum dropped. */
  datatype Tree<D> = Leaf | Node(left: Tree<D>, key: nat, used: bool, data: Option<D>, right: Tree<D>)

  /** Every key with a node, live or dead. */
  function Keys<D>(t: Tree<D>): set<nat> {
    match t
    case Leaf => {}
    case Node(l, k, _, _, r) => Keys(l) + {k} + Keys(r)
  }

  /** The search-tree order `edi_tree_findnode` relies on. */
  predicate Ordered<D>(t: Tree<D>) {
    match t
    case Leaf => true
    case Node(l, k, _, _, r) =>
      Ordered(l) && Ordered(r)
      && (forall x :: x in Keys(l) ==> x < k)
      && (forall x :: x in Keys(r) ==> k < x)
  }

  /** Dead nodes hold NULL data (delete clears the datum). */
  predicate DeadEmpty<D>(t: Tree<D>) {
    match t
    case Leaf => true
    case Node(l, _, u, d, r) => DeadEmpty(l) && DeadEmpty(r) && (!u ==> d.None?)
  }

  predicate ValidTree<D>(t: Tree<D>) {
    Ordered(t) && DeadEmpty(t)
  }

  /** The live associations of a tree: what `find` and `exists` can see. */
  function Contents<D>(t: Tree<D>): (m: map<nat, Option<D>>)
    ensures m.Keys <= Keys(t)
  {
    match t
    case Leaf => map[]
    case Node(l, k, u, d, r) =>
      var below := Contents(l) + Contents(r);
      if u then below[k := d] else below
  }

  /** `edi_tree_init`. */
  function EmptyTree<D>(): (t: Tree<D>)
    ensures ValidTree(t) && Contents(t) == map[]
  {
    Leaf
  }

  /** `edi_tree_findnode`: the node with the key, walking left for smaller keys and right for larger. */
  function FindNode<D>(t: Tree<D>, k: nat): (r: Tree<D>)
    ensures r.Node? ==> r.key == k
    ensures Ordered(t) ==> (r.Node? <==> k in Keys(t))
    ensures Ordered(t) && r.Node? ==>
      (r.used <==> k in Contents(t)) && (r.used ==> Contents(t)[k] == r.data)
  {
    match t
    case Leaf => Leaf
    case Node(l, key, _, _, rt) =>
      if k < key then FindNode(l, k)
      else if k > key then FindNode(rt, k)
      else t
  }

  /** `edi_tree_exists`: a live node holds the key. */
  function Exists<D>(t: Tree<D>, k: nat): (b: bool)
    ensures Ordered(t) ==> (b <==> k in Contents(t))
  {
    var n := FindNode(t, k);
    n.Node? && n.used
  }

  /** `edi_tree_find`: the datum of a live node with the key, else NULL. */
  function TreeFind<D>(t: Tree<D>, k: nat): (r: Option<D>)
    ensures Ordered(t) ==> r == if k in Contents(t) then Contents(t)[k] else None
  {
    var n := FindNode(t, k);
    if n.Node? && n.used then n.data else None
  }

  /**
   * `edi_tree_insert`: 0 when a live node already holds the key (the tree
   * is unchanged); otherwise a dead node with the key is revived, or a new
   * leaf added, and the result is 1.
   */
  function Insert<D>(t: Tree<D>, k: nat, d: Option<D>): (r: (Tree<D>, int))
    ensures Ordered(t) ==> Ordered(r.0) && Keys(r.0) == Keys(t) + {k}
    ensures DeadEmpty(t) ==> DeadEmpty(r.0)
    ensures Ordered(t) ==> (r.1 == 0 <==> k in Contents(t))
    ensures r.1 == 0 ==> r.0 == t
    ensures Ordered(t) && r.1 == 1 ==> Contents(r.0) == Contents(t)[k := d]
  {
    match t
    case Leaf => (Node(Leaf, k, true, d, Leaf), 1)
    case Node(l, key, u, x, rt) =>
      if k < key then
        var (l', s) := Insert(l, k, d);
        if s == 0 then
          AbsentBelow(l, key, u, x, rt, k);
          (t, 0)
        else
          InsertLeftContents(l, l', key, u, x, rt, k, d);
          InsertLeftOrdered(l, l', key, u, x, rt, k);
          AbsentBelow(l, key, u, x, rt, k);
          (Node(l', key, u, x, rt), 1)
      else if k > key then
        var (rt', s) := Insert(rt, k, d);
        if s == 0 then
          AbsentBelow(l, key, u, x, rt, k);
          (t, 0)
        else
          InsertRightContents(l, key, u, x, rt, rt', k, d);
          InsertRightOrdered(l, key, u, x, rt, rt', k);
          AbsentBelow(l, key, u, x, rt, k);
          (Node(l, key, u, x, rt'), 1)
      else if u then (t, 0)
      else
        ReviveContents(l, key, x, rt, d);
        (Node(l, key, true, d, rt), 1)
  }

  lemma InsertLeftContents<D>(l: Tree<D>, l': Tree<D>, key: nat, u: bool, x: Option<D>, rt: Tree<D>, k: nat, d: Option<D>)
    requires k < key
    ensures Ordered(Node(l, key, u, x, rt)) && Contents(l') == Contents(l)[k := d] ==>
      Contents(Node(l', key, u, x, rt)) == Contents(Node(l, key, u, x, rt))[k := d]
  {
    if Ordered(Node(l, key, u, x, rt)) && Contents(l') == Contents(l)[k := d] {
      assert k !in Contents(rt);
      UpdateUnionLeft(Contents(l), Contents(rt), k, d);
      if u {
        UpdateSwap(Contents(l) + Contents(rt), k, d, key, x);
      }
    }
  }

  /** In an ordered node, a key other than the node's is live exactly when it is live in the side it belongs to. */
  lemma AbsentBelow<D>(l: Tree<D>, key: nat, u: bool, x: Option<D>, rt: Tree<D>, k: nat)
    requires k != key
    ensures Ordered(Node(l, key, u, x, rt)) ==>
      (k in Contents(Node(l, key, u, x, rt)) <==> if k < key then k in Contents(l) else k in Contents(rt))
  {
    if Ordered(Node(l, key, u, x, rt)) {
      if k < key {
        assert k !in Keys(rt);
      } else {
        assert k !in Keys(l);
      }
    }
  }

  /** A left subtree that stays ordered and gains only the key keeps the node ordered. */
  lemma InsertLeftOrdered<D>(l: Tree<D>, l': Tree<D>, key: nat, u: bool, x: Option<D>, rt: Tree<D>, k: nat)
    requires k < key
    ensures Ordered(Node(l, key, u, x, rt)) && Ordered(l') && Keys(l') == Keys(l) + {k} ==>
      Ordered(Node(l', key, u, x, rt)) && Keys(Node(l', key, u, x, rt)) == Keys(Node(l, key, u, x, rt)) + {k}
  {
  }

  /** A right subtree that stays ordered and gains only the key keeps the node ordered. */
  lemma InsertRightOrdered<D>(l: Tree<D>, key: nat, u: bool, x: Option<D>, rt: Tree<D>, rt': Tree<D>, k: nat)
    requires k > key
    ensures Ordered(Node(l, key, u, x, rt)) && Ordered(rt') && Keys(rt') == Keys(rt) + {k} ==>
      Ordered(Node(l, key, u, x, rt')) && Keys(Node(l, key, u, x, rt')) == Keys(Node(l, key, u, x, rt)) + {k}
  {
  }

  lemma InsertRightContents<D>(l: Tree<D>, key: nat, u: bool, x: Option<D>, rt: Tree<D>, rt': Tree<D>, k: nat, d: Option<D>)
    requires k > key
    ensures Ordered(Node(l, key, u, x, rt)) && Contents(rt') == Contents(rt)[k := d] ==>
      Contents(Node(l, key, u, x, rt')) == Contents(Node(l, key, u, x, rt))[k := d]
  {
    if Ordered(Node(l, key, u, x, rt)) && Contents(rt') == Contents(rt)[k := d] {
      UpdateUnionRight(Contents(l), Contents(rt), k, d);
      if u {
        UpdateSwap(Contents(l) + Contents(rt), k, d, key, x);
      }
    }
  }

  lemma ReviveContents<D>(l: Tree<D>, key: nat, x: Option<D>, rt: Tree<D>, d: Option<D>)
    ensures Contents(Node(l, key, true, d, rt)) == Contents(Node(l, key, false, x, rt))[key := d]
  {
  }

  /**
   * `edi_tree_delete`: marks the key's node unused and yields the datum it
   * held (NULL if there was no live node); the node itself stays.
   */
  function Delete<D>(t: Tree<D>, k: nat): (r: (Tree<D>, Option<D>))
    ensures Keys(r.0) == Keys(t)
    ensures Ordered(t) ==> Ordered(r.0)
    ensures DeadEmpty(t) ==> DeadEmpty(r.0)
    ensures ValidTree(t) ==> r.1 == if k in Contents(t) then Contents(t)[k] else None
    ensures Ordered(t) ==> Contents(r.0) == Contents(t) - {k}
  {
    match t
    case Leaf => (t, None)
    case Node(l, key, u, x, rt) =>
      if k < key then
        var (l', prior) := Delete(l, k);
        DeleteLeftContents(l, l', key, u, x, rt, k);
        (Node(l', key, u, x, rt), prior)
      else if k > key then
        var (rt', prior) := Delete(rt, k);
        DeleteRightContents(l, key, u, x, rt, rt', k);
        (Node(l, key, u, x, rt'), prior)
      else
        (Node(l, key, false, None, rt), x)
  }

  lemma DeleteLeftContents<D>(l: Tree<D>, l': Tree<D>, key: nat, u: bool, x: Option<D>, rt: Tree<D>, k: nat)
    requires k < key
    ensures Ordered(Node(l, key, u, x, rt)) && Contents(l') == Contents(l) - {k} ==>
      Contents(Node(l', key, u, x, rt)) == Contents(Node(l, key, u, x, rt)) - {k}
  {
    if Ordered(Node(l, key, u, x, rt)) && Contents(l') == Contents(l) - {k} {
      assert k !in Contents(rt);
      RemoveUnionLeft(Contents(l), Contents(rt), k);
      if u {
        RemoveUpdate(Contents(l) + Contents(rt), k, key, x);
      }
    }
  }

  lemma DeleteRightContents<D>(l: Tree<D>, key: nat, u: bool, x: Option<D>, rt: Tree<D>, rt': Tree<D>, k: nat)
    requires k > key
    ensures Ordered(Node(l, key, u, x, rt)) && Contents(rt') == Contents(rt) - {k} ==>
      Contents(Node(l, key, u, x, rt')) == Contents(Node(l, key, u, x, rt)) - {k}
  {
    if Ordered(Node(l, key, u, x, rt)) && Contents(rt') == Contents(rt) - {k} {
      assert k !in Contents(l);
      RemoveUnionRight(Contents(l), Contents(rt), k);
      if u {
        RemoveUpdate(Contents(l) + Contents(rt), k, key, x);
      }
    }
  }

  // Map facts the subtree lemmas rest on.

  lemma UpdateUnionLeft<V>(a: map<nat, V>, b: map<nat, V>, k: nat, v: V)
    requires k !in b
    ensures a[k := v] + b == (a + b)[k := v]
  {
  }

  lemma UpdateUnionRight<V>(a: map<nat, V>, b: map<nat, V>, k: nat, v: V)
    ensures a + b[k := v] == (a + b)[k := v]
  {
  }

  lemma UpdateSwap<V>(m: map<nat, V>, k: nat, v: V, key: nat, w: V)
    requires k != key
    ensures m[k := v][key := w] == m[key := w][k := v]
  {
  }

  lemma RemoveUnionLeft<V>(a: map<nat, V>, b: map<nat, V>, k: nat)
    requires k !in b
    ensures (a - {k}) + b == (a + b) - {k}
  {
  }

  lemma RemoveUnionRight<V>(a: map<nat, V>, b: map<nat, V>, k: nat)
    requires k !in a
    ensures a + (b - {k}) == (a + b) - {k}
  {
  }

  lemma RemoveUpdate<V>(m: map<nat, V>, k: nat, key: nat, w: V)
    requires k != key
    ensures (m - {k})[key := w] == m[key := w] - {k}
  {
  }

  /**
   * `edi_tree_replace`: delete then insert.  Yields the datum the old live
   * node held (what the free function receives) and always succeeds.
   */
  function Replace<D>(t: Tree<D>, k: nat, d: Option<D>): (r: (Tree<D>, Option<D>, int))
    requires ValidTree(t)
    ensures ValidTree(r.0)
    ensures r.2 == 1
    ensures Contents(r.0) == Contents(t)[k := d]
    ensures r.1 == if k in Contents(t) then Contents(t)[k] else None
  {
    var (t1, prior) := Delete(t, k);
    var (t2, status) := Insert(t1, k, d);
    assert Contents(t1)[k := d] == Contents(t)[k := d];
    (t2, prior, status)
  }

  /** Deleting a key and inserting it again revives the same node: no key is added. */
  lemma ReinsertRevives<D>(t: Tree<D>, k: nat, d: Option<D>)
    requires ValidTree(t) && k in Keys(t)
    ensures Insert(Delete(t, k).0, k, d).1 == 1
    ensures Keys(Insert(Delete(t, k).0, k, d).0) == Keys(t)
    ensures TreeFind(Insert(Delete(t, k).0, k, d).0, k) == d
  {
  }

  // ---------------------------------------------------------------------
  // Buffer
  // ---------------------------------------------------------------------

  const BlockSize: nat := 64

  /** A growable byte buffer: `blck` bytes allocated, `bytes` in use, a NUL after them. */
  datatype Buffer = Buffer(blck: nat, bytes: seq<char>)

  /** Capacity is whole blocks, with room for the terminating NUL once anything is stored. */
  predicate BufferValid(b: Buffer) {
    b.blck % BlockSize == 0 && (|b.bytes| > 0 ==> |b.bytes| + 1 <= b.blck)
  }

  /** `edi_buffer_init` and the state `edi_buffer_clear` returns to. */
  function EmptyBuffer(): (b: Buffer)
    ensures BufferValid(b) && b.bytes == []
  {
    Buffer(0, [])
  }

  /**
   * `edi_buffer_append(b, data, size)`: a NULL pointer or a zero size changes
   * nothing; otherwise the first `size` bytes of `data` are added, growing
   * the capacity to the next whole block above the new size plus NUL.
   * Always yields 1 (allocation failure is not modelled).
   */
  function BufferAppend(b: Buffer, data: Option<seq<char>>, size: nat): (r: (Buffer, int))
    requires data.Some? ==> size <= |data.value|
    requires BufferValid(b)
    ensures r.1 == 1 && BufferValid(r.0)
    ensures data.None? || size == 0 ==> r.0 == b
    ensures data.Some? && size > 0 ==>
      r.0.bytes == b.bytes + data.value[..size] && b.blck <= r.0.blck
      && |r.0.bytes| + 1 <= r.0.blck
    ensures data.Some? && size > 0 && |b.bytes| + size + 1 <= b.blck ==> r.0.blck == b.blck
  {
    if data.None? || size == 0 then (b, 1)
    else
      var need := |b.bytes| + size + 1;
      var blck := if need > b.blck then (need / BlockSize + 1) * BlockSize else b.blck;
      (Buffer(blck, b.bytes + data.value[..size]), 1)
  }

  /** Appending two pieces one after the other stores their concatenation. */
  lemma BufferAppendTwice(b: Buffer, x: seq<char>, y: seq<char>)
    requires BufferValid(b)
    ensures BufferAppend(BufferAppend(b, Some(x), |x|).0, Some(y), |y|).0.bytes == b.bytes + x + y
  {
    assert x[..|x|] == x && y[..|y|] == y;
  }

  // ---------------------------------------------------------------------
  // Hash
  // ---------------------------------------------------------------------

  /** A chained hash table: one list per bucket. */
  datatype Hash<K, D> = Hash(buckets: seq<List<K, D>>)

  /** `edi_hash_init(size)`: `size` empty buckets. */
  function HashInit<K, D>(size: nat): (h: Hash<K, D>)
    ensures |h.buckets| == size
    ensures forall i :: 0 <= i < size ==> h.buckets[i] == []
  {
    Hash(seq(size, _ => []))
  }

  const UIntModulus: nat := 0x1_0000_0000

  /**
   * The bucket of a key: the hash function's result truncated to an
   * `unsigned int`, reduced modulo the bucket count.
   */
  function BucketOf<K, D>(h: Hash<K, D>, key: Option<K>, hash: (Option<K>, nat) -> nat): (i: nat)
    requires |h.buckets| > 0
    ensures i < |h.buckets|
  {
    (hash(key, |h.buckets|) % UIntModulus) % |h.buckets|
  }

  /** `edi_hash_store`: unshifts the pair into its bucket; the other buckets are untouched. */
  function Store<K, D>(h: Hash<K, D>, key: Option<K>, data: Option<D>, hash: (Option<K>, nat) -> nat): (r: Hash<K, D>)
    requires |h.buckets| > 0
    ensures |r.buckets| == |h.buckets|
    ensures r.buckets[BucketOf(h, key, hash)] == UnshiftKey(h.buckets[BucketOf(h, key, hash)], key, data)
    ensures forall i :: 0 <= i < |h.buckets| && i != BucketOf(h, key, hash) ==> r.buckets[i] == h.buckets[i]
  {
    var i := BucketOf(h, key, hash);
    Hash(h.buckets[i := UnshiftKey(h.buckets[i], key, data)])
  }

  /**
   * `edi_hash_fetch`: the datum of the first node of the key's bucket whose
   * key compares equal, NULL when no node there does.
   */
  function Fetch<K, D>(h: Hash<K, D>, key: Option<K>, hash: (Option<K>, nat) -> nat,
                       cmp: (Option<K>, Option<K>) -> int): (r: Option<D>)
    requires |h.buckets| > 0
    ensures var b := h.buckets[BucketOf(h, key, hash)];
      (forall j :: 0 <= j < |b| ==> cmp(b[j].key, key) != 0) ==> r.None?
    ensures var b := h.buckets[BucketOf(h, key, hash)];
      forall i :: (0 <= i < |b| && cmp(b[i].key, key) == 0
                   && forall j :: 0 <= j < i ==> cmp(b[j].key, key) != 0) ==> r == b[i].data
  {
    Find(h.buckets[BucketOf(h, key, hash)], key, cmp)
  }

  /** After a store, fetching the same key yields the stored datum (the newest entry wins). */
  lemma FetchAfterStore<K, D>(h: Hash<K, D>, key: Option<K>, data: Option<D>,
                              hash: (Option<K>, nat) -> nat, cmp: (Option<K>, Option<K>) -> int)
    requires |h.buckets| > 0
    requires cmp(key, key) == 0
    ensures Fetch(Store(h, key, data, hash), key, hash, cmp) == data
  {
    var r := Store(h, key, data, hash);
    assert BucketOf(r, key, hash) == BucketOf(h, key, hash);
  }

  /** A store does not change what a key comparing unequal to it fetches. */
  lemma FetchOtherAfterStore<K, D>(h: Hash<K, D>, key: Option<K>, data: Option<D>, other: Option<K>,
                                   hash: (Option<K>, nat) -> nat, cmp: (Option<K>, Option<K>) -> int)
    requires |h.buckets| > 0
    requires cmp(key, other) != 0
    ensures Fetch(Store(h, key, data, hash), other, hash, cmp) == Fetch(h, other, hash, cmp)
  {
    var r := Store(h, key, data, hash);
    var i := BucketOf(h, other, hash);
    assert BucketOf(r, other, hash) == i;
    if i == BucketOf(h, key, hash) {
      var b := h.buckets[i];
      FindPastHead(UnshiftKey(b, key, data), other, cmp);
    }
  }

  /** When the head does not match, the search continues in the rest of the list. */
  lemma FindPastHead<K, D>(l: List<K, D>, key: Option<K>, cmp: (Option<K>, Option<K>) -> int)
    requires |l| > 0 && cmp(l[0].key, key) != 0
    ensures Find(l, key, cmp) == Find(l[1..], key, cmp)
  {
  }
}

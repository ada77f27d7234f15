/** Whole-engine runs through the public entry points, from allocation to
    release. */
module Scenarios {
  import opened Bowl
  import Utils
  import LeafData
  import Cascade
  import Dispatcher
  import Murmur
  import HashLayer

  /** A fresh LEAF node holding the integer `v`. */
  method IntegerLeaf(v: int) returns (leaf: Bowl)
    ensures fresh(leaf) && leaf.kind == LEAF && leaf.arr == null
    ensures leaf.data != null && fresh(leaf.data) && leaf.data.tag == INTEGER
    ensures leaf.data.integer == Utils.Int32(v)
  {
    var e, l := LeafData.DataMalloc(INTEGER, LeafData.Long(v));
    leaf := l;
  }

  /** A fresh ARRAY node with an empty two-slot store. */
  method EmptyArray() returns (root: Bowl)
    ensures fresh(root) && root.kind == ARRAY && root.data == null
    ensures root.arr != null && fresh(root.arr) && fresh(root.arr.ptr) && root.arr.Valid()
    ensures root.arr.size == 2 && root.arr.used == 0 && Slots(root.arr) == [Empty, Empty]
  {
    var e, r := Dispatcher.BowlMalloc(ARRAY, null);
    root := r;
    assert Slots(root.arr) == [root.arr.ptr[0], root.arr.ptr[1]];
  }

  /** `bowl_append(root, x)` on an array node: `x` becomes the last live
      slot after the ones already there. */
  method Push(root: Bowl, x: Bowl)
    requires root.kind == ARRAY && root.arr != null && root.arr.Valid()
    requires root.arr.size + Utils.DELTA < SIZE_MAX
    modifies root.arr, root.arr.ptr
    ensures root.arr == old(root.arr) && root.arr.Valid() && fresh(root.arr.ptr)
    ensures root.arr.size == Utils.RescaledCapacity(old(root.arr.size), old(root.arr.used))
    ensures root.arr.used == old(root.arr.used) + 1
    ensures root.arr.ptr[..root.arr.used] == old(root.arr.ptr[..root.arr.used]) + [Child(x)]
  {
    var e := Dispatcher.BowlAppend(root, x);
  }

  /** Appends A, B and C to a new array node: the store grows from 2 to 4
      to 6 slots and its three live slots hold the children in order. */
  method AppendThree() returns (root: Bowl, a: Bowl, b: Bowl, c: Bowl)
    ensures fresh(root) && root.kind == ARRAY && root.arr != null && fresh(root.arr) && fresh(root.arr.ptr)
    ensures root.arr.Valid() && root.arr.size == 6 && root.arr.used == 3
    ensures root.arr.ptr[..root.arr.used] == [Child(a), Child(b), Child(c)]
    ensures a != b && b != c && a != c
    ensures a.kind == LEAF && b.kind == LEAF && c.kind == LEAF
    ensures a.data != null && b.data != null && c.data != null
    ensures a.data.tag == INTEGER && b.data.tag == INTEGER && c.data.tag == INTEGER
  {
    root := EmptyArray();
    a := IntegerLeaf(1);
    b := IntegerLeaf(2);
    c := IntegerLeaf(3);
    Push(root, a);
    assert Utils.RescaledCapacity(2, 0) == 4;
    Push(root, b);
    assert Utils.RescaledCapacity(4, 1) == 4;
    assert root.arr.ptr[..2] == [Child(a), Child(b)];
    Push(root, c);
    assert Utils.RescaledCapacity(4, 2) == 6;
  }

  /** `append(A); append(B); append(C); remove(B)`: B is gone, C moves
      down and two live slots remain. */
  method AppendThenRemove() returns (e: ErrT, root: Bowl, a: Bowl, b: Bowl, c: Bowl)
    ensures e == Ok && root.arr != null && root.arr.Valid() && root.arr.used == 2
    ensures root.arr.ptr[..root.arr.used] == [Child(a), Child(c)]
  {
    root, a, b, c := AppendThree();
    ghost var live := root.arr.ptr[..3];
    assert Utils.LastMatch(live, Child(b)) == Some(1);
    e := Dispatcher.BowlRemove(root, b);
    assert live[..1] + live[2..] == [Child(a), Child(c)];
  }

  /** `append(A); append(B); insert_idx(1, X)` gives A, X, B. */
  method AppendThenInsert() returns (e: ErrT, root: Bowl, a: Bowl, b: Bowl, x: Bowl)
    ensures e == Ok && root.arr != null && root.arr.Valid() && root.arr.used == 3
    ensures root.arr.ptr[..root.arr.used] == [Child(a), Child(x), Child(b)]
  {
    root := EmptyArray();
    a := IntegerLeaf(1);
    b := IntegerLeaf(2);
    x := IntegerLeaf(3);
    e := Dispatcher.BowlAppend(root, a);
    assert Utils.RescaledCapacity(2, 0) == 4;
    e := Dispatcher.BowlAppend(root, b);
    assert Utils.RescaledCapacity(4, 1) == 4;
    assert root.arr.ptr[..2] == [Child(a), Child(b)];
    e := Dispatcher.BowlInsertIdx(root, 1, x);
  }

  /** The tree of an array node whose three live slots hold integer leaves
      is released in full: each leaf's record and then the leaf, in slot
      order, then the slot buffer, the store and the node. */
  lemma ThreeLeavesFree(root: Bowl, a: Bowl, b: Bowl, c: Bowl)
    requires root.kind == ARRAY && root.arr != null && root.arr.Valid() && root.arr.used == 3
    requires root.arr.ptr[0] == Child(a) && root.arr.ptr[1] == Child(b) && root.arr.ptr[2] == Child(c)
    requires a.kind == LEAF && b.kind == LEAF && c.kind == LEAF
    requires a.data != null && b.data != null && c.data != null
    requires a.data.tag == INTEGER && b.data.tag == INTEGER && c.data.tag == INTEGER
    ensures var t := Cascade.Node(root, [Cascade.Node(a, []), Cascade.Node(b, []), Cascade.Node(c, [])]);
      Cascade.Shaped(t)
      && Cascade.FreeNode(t) == Cascade.Outcome(Ok, [a.data, a, b.data, b, c.data, c, root.arr.ptr, root.arr, root])
  {
    var ka, kb, kc := Cascade.Node(a, []), Cascade.Node(b, []), Cascade.Node(c, []);
    var t := Cascade.Node(root, [ka, kb, kc]);
    assert Cascade.Shaped(ka) && Cascade.Shaped(kb) && Cascade.Shaped(kc);
    assert Cascade.FreeNode(ka) == Cascade.Outcome(Ok, [a.data, a]);
    assert Cascade.FreeNode(kb) == Cascade.Outcome(Ok, [b.data, b]);
    assert Cascade.FreeNode(kc) == Cascade.Outcome(Ok, [c.data, c]);
    assert Cascade.FreeKids(t, 1) == Cascade.Outcome(Ok, [a.data, a]);
    assert Cascade.FreeKids(t, 2) == Cascade.Outcome(Ok, [a.data, a, b.data, b]);
    assert Cascade.FreeKids(t, 3) == Cascade.Outcome(Ok, [a.data, a, b.data, b, c.data, c]);
  }

  /** `bowl_free` on an array node holding three integer leaves returns OK
      and releases nine objects: nothing is left allocated. */
  method FreeArrayOfLeaves() returns (e: ErrT, released: seq<object>, root: Bowl, a: Bowl, b: Bowl, c: Bowl)
    ensures e == Ok && root.arr != null && a.data != null && b.data != null && c.data != null
    ensures released == [a.data, a, b.data, b, c.data, c, root.arr.ptr, root.arr, root]
  {
    root, a, b, c := AppendThree();
    assert root.arr.ptr[0] == Child(a) && root.arr.ptr[1] == Child(b) && root.arr.ptr[2] == Child(c);
    ThreeLeavesFree(root, a, b, c);
    ghost var t := Cascade.Node(root, [Cascade.Node(a, []), Cascade.Node(b, []), Cascade.Node(c, [])]);
    e, released := Cascade.BowlFree(root, t);
  }

  /** In a table whose one entry is `Item(key, leaf)`, that entry sits in
      the slot of `key`, and clearing that slot empties the table. */
  lemma OnlyEntryRemoved(s: seq<Slot>, key: CString, leaf: Bowl)
    requires HashLayer.Placed(s) && HashLayer.ItemsOf(s) == {Item(key, leaf)}
    ensures s[Murmur.SlotOf(key, |s|)] == Item(key, leaf)
    ensures HashLayer.ItemsOf(s[Murmur.SlotOf(key, |s|) := Empty]) == {}
  {
    HashLayer.StoredKeyNotFresh(s, key, leaf);
    HashLayer.RemoveItems(s, Murmur.SlotOf(key, |s|));
  }

  /** A new hash node holding one leaf under `key`. */
  method HashOfOne(key: CString) returns (root: Bowl, leaf: Bowl)
    requires NulFree(key)
    ensures root.kind == HASH && root.arr != null && HashLayer.HashValid(root.arr)
    ensures fresh(root) && fresh(root.arr) && fresh(root.arr.ptr)
    ensures HashLayer.Items(root.arr) == {Item(key, leaf)}
  {
    var e, r := Dispatcher.BowlMalloc(HASH, null);
    root := r;
    leaf := IntegerLeaf(1312);
    assert HashLayer.FreshDigest(Slots(root.arr), key);
    var rel;
    e, rel := Dispatcher.BowlInsertKey(root, Some(key), leaf);
  }

  /** Removing `key` from that node hands back the entry holding the leaf
      and leaves the node empty. */
  method InsertThenRemoveKey(key: CString) returns (e: ErrT, root: Bowl, leaf: Bowl, prev: Slot)
    requires NulFree(key)
    ensures e == Ok && prev == Item(key, leaf)
    ensures root.arr != null && HashLayer.Items(root.arr) == {}
  {
    root, leaf := HashOfOne(key);
    var a := root.arr;
    ghost var s := Slots(a);
    OnlyEntryRemoved(s, key, leaf);
    e, prev := Dispatcher.BowlRemoveKey(root, Some(key), Empty);
    assert Slots(a) == s[Murmur.SlotOf(key, |s|) := Empty];
  }
}

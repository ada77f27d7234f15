/** The hash layer of hash.c: a HASH node keeps `hash_item` entries (a key
    copy and a child) in its slot array, each at the slot its key hashes to.
    There is no probing and no chaining: an occupied target slot makes the
    table double and every entry move to its slot in the larger table. */
module HashLayer {
  import opened Bowl
  import Murmur
  import ArrayStore
  import Cascade

  /** A number below `q * s + r`'s divisor determines quotient and remainder. */
  lemma MulAtLeast(a: int, s: int)
    requires 1 <= a && 0 < s
    ensures s <= a * s
  {
    assert (a - 1) * s >= 0;
  }

  lemma ModUnique(x: int, s: int, q: int, r: int)
    requires 0 < s && 0 <= r < s && x == q * s + r
    ensures x % s == r
  {
    var Q, R := x / s, x % s;
    assert (q - Q) * s == R - r;
    if q > Q {
      MulAtLeast(q - Q, s);
    } else if q < Q {
      MulAtLeast(Q - q, s);
    }
  }

  /** The slot in a doubled table, reduced modulo the old size, is the slot
      in the old table. */
  lemma ModDouble(d: nat, s: nat)
    requires 0 < s
    ensures (d % (2 * s)) % s == d % s
  {
    var q, r := d / (2 * s), d % (2 * s);
    assert d == (2 * q) * s + r;
    var q2, r2 := r / s, r % s;
    assert r == q2 * s + r2;
    ModUnique(d, s, 2 * q + q2, r2);
  }

  /** Keys with the same digest share a slot at every size. */
  lemma EqualDigestsCollide(k1: CString, k2: CString, n: nat)
    requires 0 < n && Murmur.Digest(k1) == Murmur.Digest(k2)
    ensures Murmur.SlotOf(k1, n) == Murmur.SlotOf(k2, n)
  {
  }

  /** Keys with different digests never share a slot once the table has more
      than 2^32 slots. */
  lemma DistinctDigestsSeparate(k1: CString, k2: CString, n: nat)
    requires 0 < n && Murmur.Digest(k1) != Murmur.Digest(k2)
    ensures Murmur.WORD < n ==> Murmur.SlotOf(k1, n) != Murmur.SlotOf(k2, n)
  {
    if Murmur.WORD < n {
      ModUnique(Murmur.Digest(k1), n, 0, Murmur.Digest(k1));
      ModUnique(Murmur.Digest(k2), n, 0, Murmur.Digest(k2));
    }
  }

  /** The entries of a slot array. */
  function ItemsOf(s: seq<Slot>): set<Slot>
  {
    set i | 0 <= i < |s| && s[i].Item? :: s[i]
  }

  /** Every slot is empty or holds an entry whose key hashes to that slot. */
  ghost predicate Placed(s: seq<Slot>)
  {
    0 < |s| && forall i :: 0 <= i < |s| ==> s[i].Empty? || (s[i].Item? && Murmur.SlotOf(s[i].key, |s|) == i)
  }

  /** The invariant of a HASH node's store; `used` stays 0 because neither
      insert nor remove touches it. */
  ghost predicate HashValid(a: BowlArr)
    reads a, a.ptr
  {
    a.Valid() && a.used == 0 && Placed(a.ptr[..])
  }

  ghost function Items(a: BowlArr): set<Slot>
    reads a, a.ptr
  {
    ItemsOf(a.ptr[..])
  }

  /** No stored key has the digest of `key`. */
  ghost predicate FreshDigest(s: seq<Slot>, key: CString)
  {
    forall i :: 0 <= i < |s| && s[i].Item? ==> Murmur.Digest(s[i].key) != Murmur.Digest(key)
  }

  /** A key that is already stored collides with itself, so it is never
      fresh. */
  lemma StoredKeyNotFresh(s: seq<Slot>, key: CString, child: Bowl)
    requires Placed(s) && Item(key, child) in ItemsOf(s)
    ensures !FreshDigest(s, key)
    ensures s[Murmur.SlotOf(key, |s|)] == Item(key, child)
  {
    var i :| 0 <= i < |s| && s[i].Item? && s[i] == Item(key, child);
  }

  /** When the target slot of a fresh key is taken, the table has at most
      2^32 slots. */
  lemma CollisionBound(s: seq<Slot>, key: CString)
    requires Placed(s) && FreshDigest(s, key)
    requires !s[Murmur.SlotOf(key, |s|)].Empty?
    ensures |s| <= Murmur.WORD
  {
    var k := Murmur.SlotOf(key, |s|);
    DistinctDigestsSeparate(key, s[k].key, |s|);
  }

  /** Storing a fresh key in its empty slot keeps every entry placed and adds
      exactly that entry. */
  lemma InsertItems(s: seq<Slot>, key: CString, child: Bowl)
    requires Placed(s) && s[Murmur.SlotOf(key, |s|)].Empty?
    ensures Placed(s[Murmur.SlotOf(key, |s|) := Item(key, child)])
    ensures ItemsOf(s[Murmur.SlotOf(key, |s|) := Item(key, child)]) == ItemsOf(s) + {Item(key, child)}
  {
    var k := Murmur.SlotOf(key, |s|);
    var t := s[k := Item(key, child)];
    forall x | x in ItemsOf(s) + {Item(key, child)}
      ensures x in ItemsOf(t)
    {
      if x != Item(key, child) {
        var i :| 0 <= i < |s| && s[i].Item? && s[i] == x;
        assert t[i] == x;
      } else {
        assert t[k] == x;
      }
    }
  }

  /** Clearing a slot keeps every entry placed and drops exactly the entry
      that was there. */
  lemma RemoveItems(s: seq<Slot>, k: nat)
    requires Placed(s) && k < |s|
    ensures Placed(s[k := Empty])
    ensures ItemsOf(s[k := Empty]) == ItemsOf(s) - {s[k]}
  {
    var t := s[k := Empty];
    forall x | x in ItemsOf(s) - {s[k]}
      ensures x in ItemsOf(t)
    {
      var i :| 0 <= i < |s| && s[i].Item? && s[i] == x;
      assert t[i] == x;
    }
    forall x | x in ItemsOf(t)
      ensures x != s[k]
    {
      var i :| 0 <= i < |t| && t[i].Item? && t[i] == x;
      assert Murmur.SlotOf(x.key, |s|) == i;
    }
  }

  /** Slot `k` of the doubled table after the first `i` old slots were
      re-inserted: the entry of old slot `k % |s|`, if it was re-inserted and
      hashes to `k`. */
  function RehashedAt(s: seq<Slot>, i: nat, k: int): Slot
    requires 0 < |s|
  {
    var j := k % |s|;
    if j < i && s[j].Item? && Murmur.SlotOf(s[j].key, 2 * |s|) == k then s[j] else Empty
  }

  /** The doubled table after the first `i` old slots were re-inserted. */
  function Rehashed(s: seq<Slot>, i: nat): (r: seq<Slot>)
    requires 0 < |s|
    ensures |r| == 2 * |s|
  {
    seq(2 * |s|, k => RehashedAt(s, i, k))
  }

  /** An old entry's slot in the doubled table lies above its old slot. */
  lemma DoubledSlot(s: seq<Slot>, j: nat)
    requires Placed(s) && j < |s| && s[j].Item?
    ensures Murmur.SlotOf(s[j].key, 2 * |s|) % |s| == j
  {
    ModDouble(Murmur.Digest(s[j].key), |s|);
  }

  /** Before any re-insertion the doubled table is empty. */
  lemma RehashedNone(s: seq<Slot>)
    requires 0 < |s|
    ensures forall k :: 0 <= k < 2 * |s| ==> Rehashed(s, 0)[k] == Empty
    ensures Placed(Rehashed(s, 0))
  {
  }

  /** One step of the re-insertion loop: an empty old slot adds nothing, and
      an entry finds its slot in the doubled table empty and goes there. */
  lemma RehashStep(s: seq<Slot>, i: nat)
    requires Placed(s) && i < |s|
    ensures s[i].Empty? ==> Rehashed(s, i + 1) == Rehashed(s, i)
    ensures s[i].Item? ==> var k := Murmur.SlotOf(s[i].key, 2 * |s|);
      Rehashed(s, i)[k] == Empty && Rehashed(s, i)[k := s[i]] == Rehashed(s, i + 1)
  {
    if s[i].Item? {
      DoubledSlot(s, i);
    }
    forall k | 0 <= k < 2 * |s|
      ensures RehashedAt(s, i + 1, k) == if s[i].Item? && k == Murmur.SlotOf(s[i].key, 2 * |s|) then s[i] else RehashedAt(s, i, k)
    {
    }
  }

  /** Every entry of a partly rebuilt table sits at its slot, and its digest
      differs from that of every old entry not yet re-inserted. */
  lemma RehashedPlaced(s: seq<Slot>, i: nat)
    requires Placed(s) && i <= |s|
    ensures Placed(Rehashed(s, i))
    ensures forall j :: i <= j < |s| && s[j].Item? ==> FreshDigest(Rehashed(s, i), s[j].key)
  {
    forall j | i <= j < |s| && s[j].Item?
      ensures FreshDigest(Rehashed(s, i), s[j].key)
    {
      forall k | 0 <= k < 2 * |s| && Rehashed(s, i)[k].Item?
        ensures Murmur.Digest(Rehashed(s, i)[k].key) != Murmur.Digest(s[j].key)
      {
        var m := k % |s|;
        assert Rehashed(s, i)[k] == s[m];
        assert Murmur.SlotOf(s[m].key, |s|) == m;
      }
    }
  }

  /** A key fresh for the old table is fresh for the rebuilt one. */
  lemma RehashedFresh(s: seq<Slot>, i: nat, key: CString)
    requires 0 < |s| && FreshDigest(s, key)
    ensures FreshDigest(Rehashed(s, i), key)
  {
    forall k | 0 <= k < 2 * |s| && Rehashed(s, i)[k].Item?
      ensures Murmur.Digest(Rehashed(s, i)[k].key) != Murmur.Digest(key)
    {
      assert Rehashed(s, i)[k] == s[k % |s|];
    }
  }

  /** The fully rebuilt table holds exactly the old entries. */
  lemma RehashedItems(s: seq<Slot>)
    requires Placed(s)
    ensures ItemsOf(Rehashed(s, |s|)) == ItemsOf(s)
  {
    var r := Rehashed(s, |s|);
    forall x | x in ItemsOf(s)
      ensures x in ItemsOf(r)
    {
      var j :| 0 <= j < |s| && s[j].Item? && s[j] == x;
      DoubledSlot(s, j);
      var k := Murmur.SlotOf(x.key, 2 * |s|);
      assert r[k] == RehashedAt(s, |s|, k) == x;
    }
    forall x | x in ItemsOf(r)
      ensures x in ItemsOf(s)
    {
      var k :| 0 <= k < |r| && r[k].Item? && r[k] == x;
      assert s[k % |s|] == x;
    }
  }

  /** The growth measure: the table doubles on every collision, and a
      collision of fresh digests needs at most 2^32 slots. */
  function Headroom(n: nat): nat
  {
    if n > Murmur.WORD then 0 else Murmur.WORD + 1 - n
  }

  /** The target slot of `key` in store `a` is free. */
  ghost predicate Vacant(a: BowlArr, key: CString)
    reads a, a.ptr
    requires a.Valid()
  {
    a.ptr[Murmur.SlotOf(key, a.size)].Empty?
  }

  /** `hash_insert_key(self, key, child)`. An empty target slot takes a new
      entry; an occupied one makes the table grow (see `Grow`). The key's
      digest must differ from every stored digest: otherwise the table
      doubles forever. */
  method HashInsertKey(self: Bowl?, key: Option<CString>, child: Bowl?) returns (e: ErrT, released: seq<object>)
    requires self != null && self.arr != null ==> HashValid(self.arr)
    requires self != null && self.arr != null && key.Some? ==> FreshDigest(self.arr.ptr[..], key.value)
    modifies self, StoreFrame(self)
    ensures e == Ok <==> self != null && child != null && key.Some? && old(self.arr) != null
    ensures e != Ok ==> e == InvalidState && released == []
    ensures e != Ok && self != null ==> unchanged(self)
    ensures e != Ok && self != null && old(self.arr) != null ==> unchanged(old(self.arr)) && unchanged(old(self.arr.ptr))
    ensures self != null ==> self.kind == old(self.kind) && self.data == old(self.data)
    ensures e == Ok ==> self.arr != null && HashValid(self.arr)
    ensures e == Ok ==> Items(self.arr) == old(Items(self.arr)) + {Item(key.value, child)}
    ensures e == Ok ==> self.arr.size >= old(self.arr.size)
    ensures e == Ok && old(Vacant(self.arr, key.value)) ==> var a := old(self.arr);
      self.arr == a && unchanged(a) && released == []
      && Slots(a) == old(Slots(a))[Murmur.SlotOf(key.value, a.size) := Item(key.value, child)]
    ensures e == Ok && !old(Vacant(self.arr, key.value)) ==> var a := old(self.arr);
      fresh(self.arr) && fresh(self.arr.ptr) && self.arr.size >= 2 * old(a.size)
      && unchanged(a) && unchanged(old(a.ptr)) && |released| >= 2 && released[..2] == [old(a.ptr), a]
    ensures e == Ok ==> forall o :: o in released ==> o == old(self.arr) || o == old(self.arr.ptr) || fresh(o)
    ensures e == Ok ==> self.arr !in released && self.arr.ptr !in released && child !in released
  {
    released := [];
    if self == null || child == null || key.None? {
      return InvalidState, released;
    }
    if self.arr == null {
      return InvalidState, released;
    }
    e, released := Put(self, key.value, child);
  }

  /** `hash_insert_key` once its checks have passed: the key's slot is
      computed, and an empty slot takes the entry in place while an occupied
      one makes the table grow. The node ends with its old store or with a
      fresh one. */
  method Put(self: Bowl, key: CString, child: Bowl) returns (e: ErrT, released: seq<object>)
    requires self.arr != null && HashValid(self.arr) && FreshDigest(self.arr.ptr[..], key)
    modifies self, self.arr.ptr
    decreases Headroom(self.arr.size), 2
    ensures e == Ok && self.arr != null && HashValid(self.arr)
    ensures self.kind == old(self.kind) && self.data == old(self.data)
    ensures Items(self.arr) == old(Items(self.arr)) + {Item(key, child)}
    ensures self.arr.size >= old(self.arr.size)
    ensures self.arr == old(self.arr) || (fresh(self.arr) && fresh(self.arr.ptr))
    ensures old(Vacant(self.arr, key)) ==> var a := old(self.arr);
      self.arr == a && unchanged(a) && released == []
      && Slots(a) == old(Slots(a))[Murmur.SlotOf(key, a.size) := Item(key, child)]
    ensures !old(Vacant(self.arr, key)) ==> var a := old(self.arr);
      fresh(self.arr) && fresh(self.arr.ptr) && self.arr.size >= 2 * old(a.size)
      && unchanged(a) && unchanged(old(a.ptr)) && |released| >= 2 && released[..2] == [old(a.ptr), a]
    ensures forall o :: o in released ==> o == old(self.arr) || o == old(self.arr.ptr) || fresh(o)
    ensures self.arr !in released && self.arr.ptr !in released && child !in released
  {
    var a := self.arr;
    var idx;
    e, idx := Murmur.Hash(Some(key), a.size);
    if a.ptr[idx] != Empty {
      CollisionBound(a.ptr[..], key);
      e, released := Grow(self, key, child);
    } else {
      assert Vacant(a, key);
      InsertItems(a.ptr[..], key, child);
      a.ptr[idx] := Item(key, child);
      e := Ok;
      released := [];
    }
  }

  /** The collision branch of `hash_insert_key`: a store of twice the size
      replaces the node's store, every old entry is re-inserted, the old
      slot array and header are released, and the key is inserted into the
      new store, each step ending the chain if it fails. Only the old store
      and stores made during the call are released, never the one the node
      ends with and never the child. */
  method Grow(self: Bowl, key: CString, child: Bowl) returns (e: ErrT, released: seq<object>)
    requires self.arr != null && HashValid(self.arr) && FreshDigest(self.arr.ptr[..], key)
    requires self.arr.size <= Murmur.WORD
    modifies self
    decreases Headroom(self.arr.size), 1
    ensures e == Ok && self.arr != null && HashValid(self.arr)
    ensures self.kind == old(self.kind) && self.data == old(self.data)
    ensures Items(self.arr) == old(Items(self.arr)) + {Item(key, child)}
    ensures fresh(self.arr) && fresh(self.arr.ptr) && self.arr.size >= 2 * old(self.arr.size)
    ensures |released| >= 2 && released[..2] == [old(self.arr.ptr), old(self.arr)]
    ensures forall o :: o in released ==> o == old(self.arr) || o == old(self.arr.ptr) || fresh(o)
    ensures self.arr !in released && self.arr.ptr !in released && child !in released
  {
    var doubled, rel := Double(self, key);
    var inserted, rel2 := Retry(self, key, child);
    e := FirstFailure([doubled, inserted], Ok);
    FirstFailureFirst([doubled, inserted], Ok);
    released := rel + rel2;
  }

  /** The last step of the growth path, the call at hash.c:47: the key goes
      into the doubled store, which may itself grow again. */
  method Retry(self: Bowl, key: CString, child: Bowl) returns (e: ErrT, released: seq<object>)
    requires self.arr != null && HashValid(self.arr) && FreshDigest(self.arr.ptr[..], key)
    modifies self, self.arr.ptr
    decreases Headroom(self.arr.size), 3
    ensures e == Ok && self.arr != null && HashValid(self.arr)
    ensures self.kind == old(self.kind) && self.data == old(self.data)
    ensures Items(self.arr) == old(Items(self.arr)) + {Item(key, child)}
    ensures self.arr.size >= old(self.arr.size)
    ensures self.arr == old(self.arr) || (fresh(self.arr) && fresh(self.arr.ptr))
    ensures forall o :: o in released ==> o == old(self.arr) || o == old(self.arr.ptr) || fresh(o)
    ensures self.arr !in released && self.arr.ptr !in released && child !in released
  {
    e, released := Put(self, key, child);
  }

  /** The first steps of the growth path: a store of twice the size takes
      the place of the node's store, every old entry is re-inserted, and
      the old slot array and header are released. The key still collides
      with no stored digest. */
  method Double(self: Bowl, ghost key: CString) returns (e: ErrT, released: seq<object>)
    requires self.arr != null && HashValid(self.arr) && FreshDigest(self.arr.ptr[..], key)
    requires self.arr.size <= Murmur.WORD
    modifies self
    decreases Headroom(self.arr.size), 0
    ensures e == Ok && self.arr != null && HashValid(self.arr)
    ensures self.kind == old(self.kind) && self.data == old(self.data)
    ensures Items(self.arr) == old(Items(self.arr)) && FreshDigest(self.arr.ptr[..], key)
    ensures fresh(self.arr) && fresh(self.arr.ptr) && self.arr.size == 2 * old(self.arr.size)
    ensures released == [old(self.arr.ptr), old(self.arr)]
  {
    var a := self.arr;
    ghost var s := a.ptr[..];
    var grown := ArrayStore.ArrayMalloc(self, a.size * 2);
    RehashedNone(s);
    assert self.arr.ptr[..] == Rehashed(s, 0);
    Rehash(self, a);
    var freed;
    freed, released := ArrayStore.ArrayFreeShallow(a);
    RehashedPlaced(s, a.size);
    RehashedItems(s);
    RehashedFresh(s, a.size, key);
    e := FirstFailure([grown, freed], Ok);
    FirstFailureFirst([grown, freed], Ok);
  }

  /** The re-insertion loop of `hash_insert_key`: every entry of the old
      store `a` goes into the node's new, empty store of twice the size. No
      re-insertion collides, so the new store is never replaced meanwhile. */
  method Rehash(self: Bowl, a: BowlArr)
    requires self.arr != null && self.arr != a && self.arr.ptr != a.ptr
    requires HashValid(a) && self.arr.Valid() && self.arr.used == 0
    requires self.arr.size == 2 * a.size
    requires self.arr.ptr[..] == Rehashed(a.ptr[..], 0)
    modifies self, self.arr, self.arr.ptr
    decreases Headroom(self.arr.size), 4
    ensures self.arr == old(self.arr) && unchanged(self.arr)
    ensures self.kind == old(self.kind) && self.data == old(self.data)
    ensures self.arr.ptr[..] == Rehashed(a.ptr[..], a.size)
  {
    var t := self.arr;
    ghost var s := a.ptr[..];
    for i := 0 to a.size
      invariant self.arr == t && unchanged(t)
      invariant self.kind == old(self.kind) && self.data == old(self.data)
      invariant a.ptr[..] == s
      invariant t.ptr[..] == Rehashed(s, i)
    {
      Reinsert(self, a, i);
    }
  }

  /** One round of the re-insertion loop: entry `i` of the old store, if
      any, goes into its free slot of the new store. */
  method Reinsert(self: Bowl, a: BowlArr, i: nat)
    requires self.arr != null && self.arr != a && self.arr.ptr != a.ptr
    requires HashValid(a) && self.arr.Valid() && self.arr.used == 0
    requires self.arr.size == 2 * a.size && i < a.size
    requires self.arr.ptr[..] == Rehashed(a.ptr[..], i)
    modifies self, self.arr, self.arr.ptr
    decreases Headroom(self.arr.size), 3
    ensures self.arr == old(self.arr) && unchanged(self.arr) && unchanged(a.ptr)
    ensures self.kind == old(self.kind) && self.data == old(self.data)
    ensures self.arr.ptr[..] == Rehashed(a.ptr[..], i + 1)
  {
    var t := self.arr;
    ghost var s := a.ptr[..];
    RehashStep(s, i);
    var slot := a.ptr[i];
    if slot.Item? {
      RehashedPlaced(s, i);
      assert HashValid(t) && FreshDigest(t.ptr[..], slot.key);
      var e, rel := Put(self, slot.key, slot.child);
      assert self.arr == t;
    }
  }


  /** `hash_remove_key(self, key, &child)`: hands back whatever occupies the
      key's slot (an entry for any key, or NULL) and clears the slot. Keys
      are not compared. `prior` is what the caller's `*child` held; a failed
      check leaves it. */
  method HashRemoveKey(self: Bowl?, key: Option<CString>, prior: Slot) returns (e: ErrT, child: Slot)
    requires key.Some? ==> NulFree(key.value)
    requires self != null && self.arr != null ==> self.arr.Valid()
    modifies StoreFrame(self)
    ensures e == Ok <==> self != null && key.Some? && self.arr != null
    ensures e != Ok ==> e == InvalidState && child == prior
    ensures e != Ok && self != null && self.arr != null ==> unchanged(self.arr) && unchanged(old(self.arr.ptr))
    ensures e == Ok ==> var a := self.arr;
      unchanged(a) && 0 < a.size && var k := Murmur.SlotOf(key.value, a.size);
      child == old(a.ptr[k]) && Slots(a) == old(Slots(a))[k := Empty]
  {
    if self == null || key.None? {
      return InvalidState, prior;
    }
    var a := self.arr;
    if a == null {
      return InvalidState, prior;
    }
    var idx;
    e, idx := Murmur.Hash(key, a.size);
    child := a.ptr[idx];
    a.ptr[idx] := Empty;
  }

  /** An entry inserted into its empty slot is what a removal of the same key
      hands back; the removal restores the table, and a second removal of
      the key hands back NULL. */
  lemma RemoveUndoesInsert(s: seq<Slot>, key: CString, child: Bowl)
    requires Placed(s) && s[Murmur.SlotOf(key, |s|)].Empty?
    ensures var k := Murmur.SlotOf(key, |s|); var t := s[k := Item(key, child)];
      t[k] == Item(key, child) && t[k := Empty] == s && t[k := Empty][k] == Empty
    ensures var k := Murmur.SlotOf(key, |s|);
      ItemsOf(s[k := Item(key, child)][k := Empty]) == ItemsOf(s[k := Item(key, child)]) - {Item(key, child)}
  {
    var k := Murmur.SlotOf(key, |s|);
    InsertItems(s, key, child);
    RemoveItems(s[k := Item(key, child)], k);
  }

  /** Without a key comparison, removing a key whose slot holds another
      key's entry takes that other entry out. */
  lemma RemoveTakesOtherKey(s: seq<Slot>, key: CString, other: CString, child: Bowl)
    requires Placed(s) && key != other && Item(other, child) in ItemsOf(s)
    requires Murmur.SlotOf(key, |s|) == Murmur.SlotOf(other, |s|)
    ensures s[Murmur.SlotOf(key, |s|)] == Item(other, child)
    ensures Item(other, child) !in ItemsOf(s[Murmur.SlotOf(key, |s|) := Empty])
  {
    StoredKeyNotFresh(s, other, child);
    RemoveItems(s, Murmur.SlotOf(key, |s|));
  }

  /** What the growth path releases as written: `prev` is set to `self`,
      not to its old store, so `array_free(prev)` (hash.c:44) runs after the
      node has been given the new store. A hash store keeps `used` at 0, so
      the release cascade sees the node with no live child: it frees the new
      store and its slot buffer and reports the uninitialised `e` (`junk`). */
  ghost function GrowthReleaseAsWritten(self: Bowl, junk: ErrT): Cascade.Outcome
    reads *
  {
    var t := Cascade.Node(self, []);
    Cascade.Outcome(Cascade.ArrayFreeErrAsWritten(t, junk), Cascade.FreeStore(t).released)
  }

  /** As written, the node is left pointing at a released store, the old
      store is never released, and the step's result is undefined. */
  lemma GrowthReleaseAsWrittenDangles(self: Bowl, oldStore: BowlArr, junk: ErrT)
    requires self.arr != null && self.arr != oldStore && self.arr.ptr != oldStore.ptr
    ensures GrowthReleaseAsWritten(self, junk).released == [self.arr.ptr, self.arr]
    ensures oldStore !in GrowthReleaseAsWritten(self, junk).released
    ensures oldStore.ptr !in GrowthReleaseAsWritten(self, junk).released
    ensures GrowthReleaseAsWritten(self, junk).err == junk
  {
    var t := Cascade.Node(self, []);
    assert Cascade.FreeKids(t, 0) == Cascade.Outcome(Ok, []);
  }
}

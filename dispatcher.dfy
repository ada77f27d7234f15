/** The public operations of bowl.c: node allocation and the `bowl_*`
    entry points, which check their arguments and pass the call on to the
    array or hash store by the node's type. */
module Dispatcher {
  import opened Bowl
  import Utils
  import Murmur
  import ArrayStore
  import HashLayer
  import Cascade

  const ARRAY_START_SIZE: nat := 2
  const HASH_START_SIZE: nat := 24

  /** The store-level entry points. */
  datatype Op = Append | InsertKey | InsertIdx | SwapIdx | Remove | RemoveKey | RemoveIdx

  /** Where an entry point sends a node of a given type. */
  datatype Route = ToArray | ToHash | Refuse(err: ErrT)

  predicate Keyed(op: Op)
  {
    op == InsertKey || op == RemoveKey
  }

  /** The `switch (self->type)` of each entry point. Keyed operations reach
      only hash nodes and positional ones only array nodes; a leaf is
      refused with INVALID_PARAMS, and so is every non-hash node by
      `bowl_insert_key`; the rest are refused with INVALID_STATE. */
  function Dispatch(op: Op, kind: int): (r: Route)
    ensures r == ToArray <==> kind == ARRAY && !Keyed(op)
    ensures r == ToHash <==> kind == HASH && Keyed(op)
    ensures kind == LEAF ==> r == Refuse(InvalidParams)
    ensures r.Refuse? ==> r.err == InvalidParams || r.err == InvalidState
    ensures op == InsertKey && kind != HASH ==> r == Refuse(InvalidParams)
  {
    if op == InsertKey then
      if kind == HASH then ToHash else Refuse(InvalidParams)
    else if kind == LEAF then Refuse(InvalidParams)
    else if op == RemoveKey then
      if kind == HASH then ToHash else Refuse(InvalidState)
    else if kind == ARRAY then ToArray
    else Refuse(InvalidState)
  }

  /** The outcome `bowl_malloc(&ptr, type)` is meant to have: type 0 is
      INVALID_PARAMS, a leaf needs nothing more, an array node gets a store
      of ARRAY_START_SIZE slots and a hash node one of HASH_START_SIZE;
      any other type is INVALID_STATE. */
  function MallocOutcome(kind: int): (r: ErrT)
    ensures r == Ok <==> kind == LEAF || kind == ARRAY || kind == HASH
    ensures kind == 0 ==> r == InvalidParams
    ensures r != Ok && kind != 0 ==> r == InvalidState
  {
    if kind == 0 then InvalidParams
    else if kind == LEAF || kind == ARRAY || kind == HASH then Ok
    else InvalidState
  }

  /** The size of the store a new node of the type starts with. */
  function StartSize(kind: int): (r: Option<nat>)
    ensures r.Some? <==> kind == ARRAY || kind == HASH
    ensures r.Some? ==> 0 < r.value < SIZE_MAX
  {
    if kind == ARRAY then Some(ARRAY_START_SIZE)
    else if kind == HASH then Some(HASH_START_SIZE)
    else None
  }

  /** The outcome as written: the switch has no HASH case, so a hash node
      comes back without a store and with INVALID_STATE. */
  function MallocOutcomeAsWritten(kind: int): ErrT
  {
    if kind == 0 then InvalidParams
    else if kind == LEAF || kind == ARRAY then Ok
    else InvalidState
  }

  /** Only HASH is treated differently, so as written no hash node can be
      made, and HASH_START_SIZE is never used. */
  lemma MallocAsWrittenRefusesHash(kind: int)
    ensures MallocOutcomeAsWritten(HASH) == InvalidState && MallocOutcome(HASH) == Ok
    ensures kind != HASH ==> MallocOutcomeAsWritten(kind) == MallocOutcome(kind)
  {
  }

  /** `bowl_malloc(&ptr, type)`, with the store of a hash node allocated.
      Type 0 is refused before `*ptr` is written, so the caller keeps
      `prior`. Past the type check a node is allocated and handed back even
      when the type is then refused. */
  method BowlMalloc(kind: int, prior: Bowl?) returns (e: ErrT, node: Bowl?)
    ensures e == MallocOutcome(kind)
    ensures kind == 0 ==> node == prior
    ensures kind != 0 ==> node != null && fresh(node) && node.kind == kind && node.data == null
    ensures kind != 0 && StartSize(kind).None? ==> node.arr == null
    ensures kind != 0 && StartSize(kind).Some? ==> var a := node.arr;
      a != null && fresh(a) && fresh(a.ptr) && a.Valid()
      && a.size == StartSize(kind).value && a.used == 0
      && forall i :: 0 <= i < a.size ==> a.ptr[i] == Empty
    ensures kind == HASH ==> HashLayer.HashValid(node.arr) && HashLayer.Items(node.arr) == {}
  {
    if kind == 0 {
      return InvalidParams, prior;
    }
    node := new Bowl(kind);
    var size := StartSize(kind);
    if kind == LEAF {
      e := Ok;
    } else if size.Some? {
      e := ArrayStore.ArrayMalloc(node, size.value);
      if kind == HASH {
        assert HashLayer.Placed(node.arr.ptr[..]);
      }
    } else {
      e := InvalidState;
    }
  }

  /** What `_get_data` hands back: the member of the node's payload union
      that its type selects. */
  datatype Payload = DataPtr(d: Data?) | StorePtr(a: BowlArr?) | LinkedPtr | NullPtr

  /** `_get_data(ptr)` as it is meant to be: the store of array and hash
      nodes, the record of a leaf, the list of a linked node, else NULL. */
  function GetData(b: Bowl): (r: Payload)
    reads b
    ensures r.StorePtr? <==> b.kind == ARRAY || b.kind == HASH
    ensures r.DataPtr? <==> b.kind == LEAF
    ensures r.LinkedPtr? <==> b.kind == LINKED
    ensures r.StorePtr? ==> r.a == b.arr
    ensures r.DataPtr? ==> r.d == b.data
  {
    if b.kind == ARRAY || b.kind == HASH then StorePtr(b.arr)
    else if b.kind == LEAF then DataPtr(b.data)
    else if b.kind == LINKED then LinkedPtr
    else NullPtr
  }

  /** `_get_data` as written: `case ARRAY | HASH:` is the label 3 alone. */
  function GetDataAsWritten(b: Bowl): Payload
    reads b
  {
    if b.kind == Cascade.CaseLabel(ARRAY, HASH) then StorePtr(b.arr)
    else if b.kind == LEAF then DataPtr(b.data)
    else if b.kind == LINKED then LinkedPtr
    else NullPtr
  }

  /** As written, an array node's store is not returned. */
  lemma GetDataAsWrittenMissesArrays(b: Bowl)
    ensures b.kind == ARRAY ==> GetDataAsWritten(b) == NullPtr && GetData(b) == StorePtr(b.arr)
    ensures b.kind != ARRAY ==> GetDataAsWritten(b) == GetData(b)
  {
    Cascade.FreeDispatchAsWrittenRejectsArrays();
  }

  /** `bowl_append(self, new)`: appends `node` as the last child of an array
      node. */
  method BowlAppend(self: Bowl?, node: Bowl?) returns (e: ErrT)
    requires self != null && self.kind == ARRAY ==> NodeValid(self)
    requires self != null && self.kind == ARRAY && self.arr != null ==> self.arr.size + Utils.DELTA < SIZE_MAX
    modifies StoreFrame(self)
    ensures self == null || node == null ==> e == InvalidParams
    ensures self != null && node != null && Dispatch(Append, self.kind).Refuse? ==> e == Dispatch(Append, self.kind).err
    ensures e == Ok <==> self != null && node != null && self.kind == ARRAY && self.arr != null
    ensures self != null && node != null && self.kind == ARRAY && self.arr == null ==> e == InvalidState
    ensures e != Ok && self != null && self.arr != null ==> unchanged(self.arr) && unchanged(old(self.arr.ptr))
    ensures e == Ok ==> var a := self.arr;
      a.Valid() && fresh(a.ptr) && a.used == old(a.used) + 1
      && a.size == Utils.RescaledCapacity(old(a.size), old(a.used))
      && a.ptr[..a.used] == old(a.ptr[..a.used]) + [Child(node)]
      && forall i :: a.used <= i < a.size && i < old(a.size) ==> a.ptr[i] == old(a.ptr[i])
  {
    if self == null || node == null {
      return InvalidParams;
    }
    var route := Dispatch(Append, self.kind);
    if route.Refuse? {
      return route.err;
    }
    e := ArrayStore.ArrayInsert(self, node);
  }

  /** `bowl_insert_key(self, key, child)`: stores `child` under `key` in a
      hash node. The memory the table growth releases is returned. */
  method BowlInsertKey(self: Bowl?, key: Option<CString>, child: Bowl?) returns (e: ErrT, released: seq<object>)
    requires key.Some? ==> NulFree(key.value)
    requires self != null && self.kind == HASH && self.arr != null ==> HashLayer.HashValid(self.arr)
    requires self != null && self.kind == HASH && self.arr != null && key.Some? ==>
      HashLayer.FreshDigest(self.arr.ptr[..], key.value)
    modifies self, StoreFrame(self)
    ensures self == null || child == null || key.None? ==> e == InvalidParams
    ensures self != null && child != null && key.Some? && self.kind != HASH ==> e == InvalidParams
    ensures e == Ok <==> self != null && child != null && key.Some? && self.kind == HASH && old(self.arr) != null
    ensures self != null && child != null && key.Some? && self.kind == HASH && old(self.arr) == null ==> e == InvalidState
    ensures e != Ok ==> released == []
    ensures e != Ok && self != null ==> unchanged(self)
    ensures e != Ok && self != null && old(self.arr) != null ==> unchanged(old(self.arr)) && unchanged(old(self.arr.ptr))
    ensures self != null ==> self.kind == old(self.kind) && self.data == old(self.data)
    ensures e == Ok ==> self.arr != null && HashLayer.HashValid(self.arr)
                        && HashLayer.Items(self.arr) == old(HashLayer.Items(self.arr)) + {Item(key.value, child)}
    ensures e == Ok ==> (self.arr == old(self.arr) && self.arr.ptr == old(self.arr.ptr))
                        || (fresh(self.arr) && fresh(self.arr.ptr))
    ensures e == Ok ==> forall o :: o in released ==> o == old(self.arr) || o == old(self.arr.ptr) || fresh(o)
    ensures e == Ok ==> self.arr !in released && self.arr.ptr !in released && child !in released
  {
    released := [];
    if self == null || child == null || key.None? {
      return InvalidParams, released;
    }
    var route := Dispatch(InsertKey, self.kind);
    if route.Refuse? {
      return route.err, released;
    }
    e, released := HashLayer.HashInsertKey(self, key, child);
  }

  /** `bowl_insert_idx(self, idx, child)`: inserts `child` before position
      `idx` of an array node. */
  method BowlInsertIdx(self: Bowl?, idx: nat, child: Bowl?) returns (e: ErrT)
    requires self != null && self.kind == ARRAY ==> NodeValid(self)
    requires self != null && self.kind == ARRAY && self.arr != null ==> self.arr.size + Utils.DELTA < SIZE_MAX
    modifies StoreFrame(self)
    ensures self == null || child == null ==> e == InvalidParams
    ensures self != null && child != null && Dispatch(InsertIdx, self.kind).Refuse? ==> e == Dispatch(InsertIdx, self.kind).err
    ensures e == Ok <==> self != null && child != null && self.kind == ARRAY && self.arr != null && idx < self.arr.used
    ensures self != null && child != null && self.kind == ARRAY && self.arr == null ==> e == InvalidState
    ensures e != Ok && self != null && self.arr != null ==> unchanged(self.arr) && unchanged(old(self.arr.ptr))
    ensures e == Ok ==> var a := self.arr;
      a.Valid() && fresh(a.ptr) && a.used == old(a.used) + 1
      && a.size == Utils.RescaledCapacity(old(a.size), old(a.used))
      && a.ptr[..a.used] == old(a.ptr[..idx]) + [Child(child)] + old(a.ptr[idx..a.used])
      && forall i :: a.used <= i < a.size && i < old(a.size) ==> a.ptr[i] == old(a.ptr[i])
  {
    if self == null || child == null {
      return InvalidParams;
    }
    var route := Dispatch(InsertIdx, self.kind);
    if route.Refuse? {
      return route.err;
    }
    e := ArrayStore.ArrayInsertKey(self, idx, child);
  }

  /** `bowl_swap_idx(self, idx, child, &prev)`: puts `child` at position
      `idx` of an array node and hands back what was there. `prior` is what
      the caller's `*prev` held: only the store's own index check sets it
      to NULL, every earlier refusal leaves it. */
  method BowlSwapIdx(self: Bowl?, idx: nat, child: Bowl?, prior: Slot) returns (e: ErrT, prev: Slot)
    requires self != null && self.kind == ARRAY ==> NodeValid(self)
    modifies StoreFrame(self)
    ensures self == null || child == null ==> e == InvalidParams
    ensures self != null && child != null && Dispatch(SwapIdx, self.kind).Refuse? ==> e == Dispatch(SwapIdx, self.kind).err
    ensures e == Ok <==> self != null && child != null && self.kind == ARRAY && self.arr != null && idx < self.arr.used
    ensures self != null && child != null && self.kind == ARRAY && self.arr == null ==> e == InvalidState
    ensures self == null || child == null || self.kind != ARRAY || self.arr == null ==> prev == prior
    ensures e != Ok && self != null && child != null && self.kind == ARRAY && self.arr != null ==> prev == Empty
    ensures e != Ok && self != null && self.arr != null ==> unchanged(self.arr) && unchanged(old(self.arr.ptr))
    ensures e == Ok ==> var a := self.arr;
      unchanged(a) && prev == old(a.ptr[idx]) && Slots(a) == old(Slots(a))[idx := Child(child)]
  {
    if self == null || child == null {
      return InvalidParams, prior;
    }
    var route := Dispatch(SwapIdx, self.kind);
    if route.Refuse? {
      return route.err, prior;
    }
    e, prev := ArrayStore.ArraySwapKey(self, idx, child, prior);
  }

  /** `bowl_remove(self, child)`: takes the last occurrence of `child` out
      of the children of an array node. */
  method BowlRemove(self: Bowl?, child: Bowl?) returns (e: ErrT)
    requires self != null && self.kind == ARRAY ==> NodeValid(self)
    modifies StoreFrame(self)
    ensures self == null || child == null ==> e == InvalidParams
    ensures self != null && child != null && Dispatch(Remove, self.kind).Refuse? ==> e == Dispatch(Remove, self.kind).err
    ensures self != null && child != null && self.kind == ARRAY && self.arr == null ==> e == InvalidState
    ensures e == Ok <==> self != null && child != null && self.kind == ARRAY && self.arr != null
                         && Child(child) in old(self.arr.ptr[..self.arr.used])
    ensures e != Ok && self != null && self.arr != null ==> unchanged(self.arr) && unchanged(old(self.arr.ptr))
    ensures e == Ok ==> var a := self.arr; var live := old(a.ptr[..a.used]);
      var idx := Utils.LastMatch(live, Child(child)).value;
      a.ptr == old(a.ptr) && a.size == old(a.size) && a.used == old(a.used) - 1
      && a.ptr[..a.used] == live[..idx] + live[idx + 1..]
  {
    if self == null || child == null {
      return InvalidParams;
    }
    var route := Dispatch(Remove, self.kind);
    if route.Refuse? {
      return route.err;
    }
    e := ArrayStore.ArrayRemove(self, child);
  }

  /** `bowl_remove_key(self, key, &prev)`: takes the entry in the slot of
      `key` out of a hash node and hands it back. `prior` is what the
      caller's `*prev` held; every refusal leaves it. */
  method BowlRemoveKey(self: Bowl?, key: Option<CString>, prior: Slot) returns (e: ErrT, prev: Slot)
    requires key.Some? ==> NulFree(key.value)
    requires self != null && self.kind == HASH && self.arr != null ==> self.arr.Valid()
    modifies StoreFrame(self)
    ensures self == null || key.None? ==> e == InvalidParams
    ensures self != null && key.Some? && Dispatch(RemoveKey, self.kind).Refuse? ==> e == Dispatch(RemoveKey, self.kind).err
    ensures self != null && key.Some? && self.kind == HASH && self.arr == null ==> e == InvalidState
    ensures e == Ok <==> self != null && key.Some? && self.kind == HASH && self.arr != null
    ensures e != Ok ==> prev == prior
    ensures e != Ok && self != null && self.arr != null ==> unchanged(self.arr) && unchanged(old(self.arr.ptr))
    ensures e == Ok ==> var a := self.arr;
      unchanged(a) && 0 < a.size && var k := Murmur.SlotOf(key.value, a.size);
      prev == old(a.ptr[k]) && Slots(a) == old(Slots(a))[k := Empty]
  {
    if self == null || key.None? {
      return InvalidParams, prior;
    }
    var route := Dispatch(RemoveKey, self.kind);
    if route.Refuse? {
      return route.err, prior;
    }
    e, prev := HashLayer.HashRemoveKey(self, key, prior);
  }

  /** `bowl_remove_idx(self, idx, &prev)`: takes position `idx` out of an
      array node and hands back what was there. `prior` is what the
      caller's `*prev` held; every refusal leaves it. */
  method BowlRemoveIdx(self: Bowl?, idx: nat, prior: Slot) returns (e: ErrT, prev: Slot)
    requires self != null && self.kind == ARRAY ==> NodeValid(self)
    modifies StoreFrame(self)
    ensures self == null ==> e == InvalidParams
    ensures self != null && Dispatch(RemoveIdx, self.kind).Refuse? ==> e == Dispatch(RemoveIdx, self.kind).err
    ensures self != null && self.kind == ARRAY && self.arr == null ==> e == InvalidState
    ensures e == Ok <==> self != null && self.kind == ARRAY && self.arr != null && idx < old(self.arr.used)
    ensures e != Ok ==> prev == prior
    ensures e != Ok && self != null && self.arr != null ==> unchanged(self.arr) && unchanged(old(self.arr.ptr))
    ensures e == Ok ==> var a := self.arr; var live := old(a.ptr[..a.used]);
      a.ptr == old(a.ptr) && a.size == old(a.size) && a.used == old(a.used) - 1
      && prev == live[idx] && a.ptr[..a.used] == live[..idx] + live[idx + 1..]
  {
    if self == null {
      return InvalidParams, prior;
    }
    var route := Dispatch(RemoveIdx, self.kind);
    if route.Refuse? {
      return route.err, prior;
    }
    e, prev := ArrayStore.ArrayRemoveKey(self, idx, prior);
  }
}

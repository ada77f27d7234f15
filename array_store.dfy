/** The slot-array store of array.c: the operations behind an ARRAY node
    (and the storage of a HASH node). A node's children are its first `used`
    slots; the slots from `used` on are spare. */
module ArrayStore {
  import opened Bowl
  import Utils

  /** The slots of `s` after a new slot `x` goes in at `idx` among the first
      `used`: the slots from `idx` to `used - 1` move up by one. */
  function InsertAt(s: seq<Slot>, idx: nat, used: nat, x: Slot): seq<Slot>
    requires idx <= used < |s|
  {
    s[..idx] + [x] + s[idx..used] + s[used + 1..]
  }

  lemma InsertAtAt(s: seq<Slot>, idx: nat, used: nat, x: Slot, k: nat)
    requires idx <= used < |s| && k < |s|
    ensures |InsertAt(s, idx, used, x)| == |s|
    ensures InsertAt(s, idx, used, x)[k] ==
      if k < idx then s[k] else if k == idx then x else if k <= used then s[k - 1] else s[k]
  {
  }

  /** An insertion adds exactly `x` to the children, in position `idx`. */
  lemma InsertAtLive(s: seq<Slot>, idx: nat, used: nat, x: Slot)
    requires idx <= used < |s|
    ensures InsertAt(s, idx, used, x)[..used + 1] == s[..idx] + [x] + s[idx..used]
    ensures multiset(InsertAt(s, idx, used, x)[..used + 1]) == multiset(s[..used]) + multiset{x}
  {
    assert InsertAt(s, idx, used, x)[..used + 1] == s[..idx] + [x] + s[idx..used];
    assert s[..used] == s[..idx] + s[idx..used];
  }

  /** Taking slot `idx` back out of the `used + 1` children, as
      `array_remove_key` does, returns `x` and restores every child. */
  lemma {:induction false} RemoveUndoesInsert(s: seq<Slot>, idx: nat, used: nat, x: Slot)
    requires idx <= used < |s|
    ensures InsertAt(s, idx, used, x)[idx] == x
    ensures Utils.CompactLeft(InsertAt(s, idx, used, x), idx, used + 1)[..used] == s[..used]
  {
    var t := InsertAt(s, idx, used, x);
    forall k | 0 <= k < used
      ensures Utils.CompactLeft(t, idx, used + 1)[k] == s[k]
    {
      Utils.CompactLeftAt(t, idx, used + 1, k);
      InsertAtAt(s, idx, used, x, k);
      if k >= idx {
        InsertAtAt(s, idx, used, x, k + 1);
      }
    }
  }

  /** Appending a child after reallocation extends the children by it. */
  lemma AppendLive(s: seq<Slot>, r: seq<Slot>, used: nat, x: Slot)
    requires Utils.Realloced(s, r) && used <= |s| && used < |r|
    ensures r[used := x][..used + 1] == s[..used] + [x]
  {
    Utils.ReallocKeepsLive(s, r, used);
    assert r[used := x][..used + 1] == r[..used] + [x];
  }

  /** `array_malloc(self, size)`: gives the node a fresh store of `size`
      empty slots (any previous store is dropped, not freed). A slot array
      of SIZE_MAX pointers or more cannot be allocated. */
  method ArrayMalloc(self: Bowl?, size: nat) returns (e: ErrT)
    modifies self
    ensures self == null ==> e == InvalidState
    ensures self != null && size == 0 ==> e == InvalidParams
    ensures self != null && size >= SIZE_MAX ==> e == MallocFailed
    ensures e != Ok && self != null ==> unchanged(self)
    ensures self != null && 0 < size < SIZE_MAX ==> e == Ok
    ensures e == Ok ==> self != null && fresh(self.arr) && fresh(self.arr.ptr) && self.arr.Valid()
    ensures e == Ok ==> self.arr.size == size && self.arr.used == 0
    ensures e == Ok ==> forall i :: 0 <= i < size ==> self.arr.ptr[i] == Empty
    ensures e == Ok ==> self.kind == old(self.kind) && self.data == old(self.data)
  {
    if self == null {
      return InvalidState;
    }
    if size == 0 {
      return InvalidParams;
    }
    if size >= SIZE_MAX {
      return MallocFailed;
    }
    var arr := new BowlArr(size);
    self.arr := arr;
    e := Ok;
  }

  /** `array_insert(self, node)`: rescales the store and appends `node` as the
      last child. Spare slots that the reallocation kept keep their contents;
      the ones it added are indeterminate. */
  method ArrayInsert(self: Bowl?, node: Bowl?) returns (e: ErrT)
    requires self != null ==> NodeValid(self)
    requires self != null && self.arr != null ==> self.arr.size + Utils.DELTA < SIZE_MAX
    modifies StoreFrame(self)
    ensures e == Ok <==> self != null && node != null && self.arr != null
    ensures self == null || node == null ==> e == InvalidParams
    ensures self != null && node != null && self.arr == null ==> e == InvalidState
    ensures e != Ok && self != null && self.arr != null ==> unchanged(self.arr) && unchanged(old(self.arr.ptr))
    ensures e == Ok ==> var a := self.arr;
      a.Valid() && fresh(a.ptr)
      && a.size == Utils.RescaledCapacity(old(a.size), old(a.used))
      && a.used == old(a.used) + 1
      && a.ptr[..a.used] == old(a.ptr[..a.used]) + [Child(node)]
      && forall i :: a.used <= i < a.size && i < old(a.size) ==> a.ptr[i] == old(a.ptr[i])
  {
    if self == null || node == null {
      return InvalidParams;
    }
    var a := self.arr;
    if a == null {
      return InvalidState;
    }
    var p, n;
    e, p, n := Utils.Rescale(a.ptr, a.size, a.used);
    AppendLive(a.ptr[..], p[..], a.used, Child(node));
    p[a.used] := Child(node);
    a.ptr, a.size := p, n;
    a.used := a.used + 1;
  }

  /** Opens a gap at `idx` by moving the slots from `idx` to `used - 1` up by
      one, starting from the top so that nothing is overwritten before it is
      copied. */
  method OpenGap(p: array<Slot>, idx: nat, used: nat)
    requires idx <= used < p.Length
    modifies p
    ensures p[..] == InsertAt(old(p[..]), idx, used, old(p[idx]))
  {
    var i := used;
    while i > idx
      invariant idx <= i <= used
      invariant forall k :: 0 <= k <= i ==> p[k] == old(p[k])
      invariant forall k :: i < k <= used ==> p[k] == old(p[k - 1])
      invariant forall k :: used < k < p.Length ==> p[k] == old(p[k])
    {
      p[i] := p[i - 1];
      i := i - 1;
    }
    forall k | 0 <= k < p.Length
      ensures p[..][k] == InsertAt(old(p[..]), idx, used, old(p[idx]))[k]
    {
      InsertAtAt(old(p[..]), idx, used, old(p[idx]), k);
    }
  }

  /** `array_insert_key(self, idx, node)`: puts `node` in position `idx` of the
      children, before the child that was there; `idx` must name an existing
      child. */
  method ArrayInsertKey(self: Bowl?, idx: nat, node: Bowl?) returns (e: ErrT)
    requires self != null ==> NodeValid(self)
    requires self != null && self.arr != null ==> self.arr.size + Utils.DELTA < SIZE_MAX
    modifies StoreFrame(self)
    ensures e == Ok <==> self != null && node != null && self.arr != null && idx < self.arr.used
    ensures self == null || node == null ==> e == InvalidParams
    ensures self != null && node != null && self.arr == null ==> e == InvalidState
    ensures self != null && node != null && self.arr != null && idx >= self.arr.used ==> e == InvalidParams
    ensures e != Ok && self != null && self.arr != null ==> unchanged(self.arr) && unchanged(old(self.arr.ptr))
    ensures e == Ok ==> var a := self.arr;
      a.Valid() && fresh(a.ptr)
      && a.size == Utils.RescaledCapacity(old(a.size), old(a.used))
      && a.used == old(a.used) + 1
      && a.ptr[..a.used] == old(a.ptr[..idx]) + [Child(node)] + old(a.ptr[idx..a.used])
      && forall i :: a.used <= i < a.size && i < old(a.size) ==> a.ptr[i] == old(a.ptr[i])
  {
    if self == null || node == null {
      return InvalidParams;
    }
    var a := self.arr;
    if a == null {
      return InvalidState;
    }
    if idx >= a.used {
      return InvalidParams;
    }
    var p, n;
    e, p, n := Utils.Rescale(a.ptr, a.size, a.used);
    ghost var grown := p[..];
    OpenGap(p, idx, a.used);
    p[idx] := Child(node);
    GapFilled(grown, idx, a.used, Child(node));
    InsertKeyLive(a.ptr[..], grown, idx, a.used, Child(node));
    a.ptr, a.size := p, n;
    a.used := a.used + 1;
  }

  /** Filling the opened gap gives the insertion. */
  lemma GapFilled(s: seq<Slot>, idx: nat, used: nat, x: Slot)
    requires idx <= used < |s|
    ensures InsertAt(s, idx, used, s[idx])[idx := x] == InsertAt(s, idx, used, x)
  {
    forall k | 0 <= k < |s|
      ensures InsertAt(s, idx, used, s[idx])[idx := x][k] == InsertAt(s, idx, used, x)[k]
    {
      InsertAtAt(s, idx, used, x, k);
      InsertAtAt(s, idx, used, s[idx], k);
    }
  }

  /** After reallocation and insertion, the children are the old children
      with `x` in position `idx`. */
  lemma InsertKeyLive(s: seq<Slot>, r: seq<Slot>, idx: nat, used: nat, x: Slot)
    requires Utils.Realloced(s, r) && idx <= used <= |s| && used < |r|
    ensures InsertAt(r, idx, used, x)[..used + 1] == s[..idx] + [x] + s[idx..used]
    ensures forall k :: used < k < |r| && k < |s| ==> InsertAt(r, idx, used, x)[k] == s[k]
  {
    InsertAtLive(r, idx, used, x);
    Utils.ReallocKeepsLive(s, r, used);
    assert r[..idx] == s[..idx] && r[idx..used] == s[idx..used];
    forall k | used < k < |r| && k < |s|
      ensures InsertAt(r, idx, used, x)[k] == s[k]
    {
      InsertAtAt(r, idx, used, x, k);
    }
  }

  /** The slots after `n` rounds of the shift loop of `array_insert_key` as
      written, `for(i = idx + 1; idx < used; i++) ptr[i] = ptr[i - 1]`:
      the guard never changes and each round copies the slot just written. */
  function InsertRoundsAsWritten(s: seq<Slot>, idx: nat, n: nat): (r: seq<Slot>)
    requires idx + n < |s|
    ensures |r| == |s|
  {
    if n == 0 then s
    else var prev := InsertRoundsAsWritten(s, idx, n - 1); prev[idx + n := prev[idx + n - 1]]
  }

  lemma {:induction false} InsertRoundsAt(s: seq<Slot>, idx: nat, n: nat, k: nat)
    requires idx + n < |s| && k < |s|
    ensures InsertRoundsAsWritten(s, idx, n)[k] == if idx <= k <= idx + n then s[idx] else s[k]
  {
    if n > 0 {
      InsertRoundsAt(s, idx, n - 1, k);
      InsertRoundsAt(s, idx, n - 1, idx + n - 1);
    }
  }

  /** As written, the loop copies slot `idx` over every later slot, so the
      children after `idx` are lost; when it reaches the last slot its guard
      still holds and the next round writes one past the end. */
  lemma InsertAsWrittenSmears(s: seq<Slot>, idx: nat)
    requires idx + 1 < |s|
    ensures InsertRoundsAsWritten(s, idx, |s| - idx - 1)[idx..] == seq(|s| - idx, _ => s[idx])
    ensures idx + 2 < |s| && s[idx + 1] != s[idx] ==>
      InsertRoundsAsWritten(s, idx, |s| - idx - 1)[idx + 2] != InsertAt(s, idx, |s| - 1, s[idx])[idx + 2]
  {
    var n := |s| - idx - 1;
    forall k | idx <= k < |s|
      ensures InsertRoundsAsWritten(s, idx, n)[k] == s[idx]
    {
      InsertRoundsAt(s, idx, n, k);
    }
    if idx + 2 < |s| {
      InsertAtAt(s, idx, |s| - 1, s[idx], idx + 2);
    }
  }

  /** `array_swap_key(self, idx, node, &old)`: replaces child `idx` by `node`
      and hands back the child it replaced. `prior` is what the caller's
      `*old` held: the NULL checks leave it, and once the store is found the
      out value is set to NULL before the index check. */
  method ArraySwapKey(self: Bowl?, idx: nat, node: Bowl?, prior: Slot) returns (e: ErrT, prev: Slot)
    requires self != null ==> NodeValid(self)
    modifies StoreFrame(self)
    ensures e == Ok <==> self != null && node != null && self.arr != null && idx < self.arr.used
    ensures self == null || node == null ==> e == InvalidParams && prev == prior
    ensures self != null && node != null && self.arr == null ==> e == InvalidState && prev == prior
    ensures self != null && node != null && self.arr != null && idx >= self.arr.used ==> e == InvalidParams && prev == Empty
    ensures e != Ok && self != null && self.arr != null ==> unchanged(self.arr) && unchanged(old(self.arr.ptr))
    ensures e == Ok ==> var a := self.arr;
      unchanged(a) && prev == old(a.ptr[idx]) && Slots(a) == old(Slots(a))[idx := Child(node)]
  {
    if self == null || node == null {
      return InvalidParams, prior;
    }
    var a := self.arr;
    if a == null {
      return InvalidState, prior;
    }
    prev := Empty;
    if idx >= a.used {
      return InvalidParams, prev;
    }
    prev := a.ptr[idx];
    a.ptr[idx] := Child(node);
    e := Ok;
  }

  /** Swapping the handed-back child in again restores the store. */
  lemma SwapBackRestores(s: seq<Slot>, idx: nat, x: Slot)
    requires idx < |s|
    ensures s[idx := x][idx] == x
    ensures s[idx := x][idx := s[idx]] == s
  {
  }

  /** `array_remove(self, child)` as it is meant to work: finds the last of
      the children holding `child`, compacts it away and counts one child
      less. A child that is not there is INVALID_PARAMS (the search reports
      SIZE_MAX, which fails the bounds check of the remove); so is any child
      of a node without children, whose search is refused. */
  method ArrayRemove(self: Bowl?, child: Bowl?) returns (e: ErrT)
    requires self != null ==> NodeValid(self)
    modifies StoreFrame(self)
    ensures self == null || child == null ==> e == InvalidParams
    ensures self != null && child != null && self.arr == null ==> e == InvalidState
    ensures self != null && child != null && self.arr != null ==>
      (e == Ok <==> Child(child) in old(self.arr.ptr[..self.arr.used]))
    ensures self != null && child != null && self.arr != null && e != Ok ==> e == InvalidParams
    ensures e != Ok && self != null && self.arr != null ==> unchanged(self.arr) && unchanged(old(self.arr.ptr))
    ensures e == Ok ==> var a := self.arr; var live := old(a.ptr[..a.used]);
      var idx := Utils.LastMatch(live, Child(child)).value;
      a.ptr == old(a.ptr) && a.size == old(a.size) && a.used == old(a.used) - 1
      && Slots(a) == Utils.CompactLeft(old(Slots(a)), idx, old(a.used))
      && a.ptr[..a.used] == live[..idx] + live[idx + 1..]
  {
    if self == null || child == null {
      return InvalidParams;
    }
    var a := self.arr;
    if a == null {
      return InvalidState;
    }
    var idx;
    e, idx := Utils.Search(a.ptr, a.used, child);
    if e != Ok {
      return;
    }
    ghost var s := a.ptr[..];
    var out;
    e, out := Utils.Remove(a.ptr, idx, a.used, Empty);
    if e == Ok {
      a.used := a.used - 1;
      CompactLeftLive(s, idx, a.used + 1);
    }
  }

  /** The children after a removal: the old ones without the one at `idx`. */
  lemma CompactLeftLive(s: seq<Slot>, idx: nat, used: nat)
    requires idx < used <= |s|
    ensures Utils.CompactLeft(s, idx, used)[..used - 1] == s[..used][..idx] + s[..used][idx + 1..]
  {
    assert Utils.CompactLeft(s, idx, used)[..used - 1] == s[..idx] + s[idx + 1..used];
  }

  /** `array_remove` as written: the search and the compaction run over all
      `size` slots, and `used` stays. The result is the new slot array, or
      None when the search finds nothing. */
  function RemoveAsWritten(s: seq<Slot>, x: Slot): (r: Option<seq<Slot>>)
    requires 0 < |s|
    ensures r.Some? <==> x in s
    ensures r.Some? ==> |r.value| == |s|
  {
    match Utils.LastMatch(s, x)
    case None => None
    case Some(idx) => Some(Utils.CompactLeft(s, idx, |s|))
  }

  /** As written, the slot after the children, which `realloc` leaves
      indeterminate after a growth, moves into the last child's place,
      where the intended removal counts one child less. */
  lemma RemoveAsWrittenExposesSpare(s: seq<Slot>, idx: nat, used: nat)
    requires idx < used < |s|
    ensures Utils.CompactLeft(s, idx, |s|)[..used] == s[..idx] + s[idx + 1..used] + [s[used]]
    ensures Utils.CompactLeft(s, idx, used)[..used - 1] == s[..idx] + s[idx + 1..used]
  {
    assert Utils.CompactLeft(s, idx, |s|)[..used] == s[..idx] + s[idx + 1..used] + [s[used]];
    assert Utils.CompactLeft(s, idx, used)[..used - 1] == s[..idx] + s[idx + 1..used];
  }

  /** As written, when a spare slot happens to hold the child, the search
      picks that slot: the call reports success and every child stays. */
  lemma RemoveAsWrittenMatchesSpare(s: seq<Slot>, used: nat, x: Slot)
    requires used < |s| && x in s[used..]
    ensures RemoveAsWritten(s, x).Some? && RemoveAsWritten(s, x).value[..used] == s[..used]
  {
    var j :| 0 <= j < |s| - used && s[used..][j] == x;
    assert s[used + j] == x;
    var idx := Utils.LastMatch(s, x).value;
    assert idx >= used;
    forall k | 0 <= k < used
      ensures Utils.CompactLeft(s, idx, |s|)[k] == s[k]
    {
      Utils.CompactLeftAt(s, idx, |s|, k);
    }
  }

  /** `array_remove_key(self, idx, &out)` as it is meant to work: takes child
      `idx` out, hands it back, compacts the children and counts one less.
      `prior` is what the caller's `*out` held; every failed check leaves it. */
  method ArrayRemoveKey(self: Bowl?, idx: nat, prior: Slot) returns (e: ErrT, out: Slot)
    requires self != null ==> NodeValid(self)
    modifies StoreFrame(self)
    ensures e == Ok <==> self != null && self.arr != null && idx < old(self.arr.used)
    ensures self == null ==> e == InvalidParams
    ensures self != null && self.arr == null ==> e == InvalidState
    ensures self != null && self.arr != null && idx >= old(self.arr.used) ==> e == InvalidParams
    ensures e != Ok ==> out == prior
    ensures e != Ok && self != null && self.arr != null ==> unchanged(self.arr) && unchanged(old(self.arr.ptr))
    ensures e == Ok ==> var a := self.arr; var live := old(a.ptr[..a.used]);
      a.ptr == old(a.ptr) && a.size == old(a.size) && a.used == old(a.used) - 1
      && out == live[idx] && Slots(a) == Utils.CompactLeft(old(Slots(a)), idx, old(a.used))
      && a.ptr[..a.used] == live[..idx] + live[idx + 1..]
  {
    if self == null {
      return InvalidParams, prior;
    }
    var a := self.arr;
    if a == null {
      return InvalidState, prior;
    }
    if idx >= a.used {
      return InvalidParams, prior;
    }
    ghost var s := a.ptr[..];
    e, out := Utils.Remove(a.ptr, idx, a.used, prior);
    a.used := a.used - 1;
    CompactLeftLive(s, idx, a.used + 1);
  }

  /** `array_free_shallow(arr)`: releases the slot array and the header,
      and none of the children. */
  method ArrayFreeShallow(arr: BowlArr?) returns (e: ErrT, released: seq<object>)
    ensures arr == null ==> e == InvalidState && released == []
    ensures arr != null ==> e == Ok && released == [arr.ptr, arr]
  {
    if arr == null {
      return InvalidState, [];
    }
    var a: BowlArr := arr;
    return Ok, [a.ptr, a];
  }
}

/** The raw slot-array primitives of utils.c: the linear grow/shrink rule
    with its reallocation, the linear pointer search and the compacting
    remove. */
module Utils {
  import opened Bowl

  const DELTA: nat := 2
  const OVERSHOOT: nat := 8

  /** A value converted to a 32-bit `int`: the low 32 bits, read as a
      two's-complement number. */
  function Int32(x: int): (r: int)
    ensures -0x8000_0000 <= r < 0x8000_0000
    ensures -0x8000_0000 <= x < 0x8000_0000 ==> r == x
    ensures (x - r) % 0x1_0000_0000 == 0
  {
    var m := x % 0x1_0000_0000;
    if m < 0x8000_0000 then m else m - 0x1_0000_0000
  }

  /** The capacity `_array_rescale` computes as written: both sides of the
      shrink test go through a cast to `int`. */
  function RescaledCapacityAsWritten(len: nat, use: nat): int
  {
    var l := if Int32(len - OVERSHOOT) >= Int32(use + DELTA) then len - OVERSHOOT else len;
    if use + DELTA >= l then l + DELTA else l
  }

  /** The capacity `_array_rescale` is meant to compute: shrink by
      OVERSHOOT when at least OVERSHOOT + DELTA slots are spare, then grow by
      DELTA when fewer than DELTA would be spare. */
  function RescaledCapacity(len: nat, use: nat): (r: nat)
    requires use <= len
    ensures r >= use + DELTA
    ensures len - OVERSHOOT <= r <= len + DELTA
    ensures r < len ==> len - OVERSHOOT >= use + DELTA
    ensures r > len ==> use + DELTA >= len - OVERSHOOT
  {
    var l := if len - OVERSHOOT >= use + DELTA then len - OVERSHOOT else len;
    if use + DELTA >= l then l + DELTA else l
  }

  /** The four outcomes of the rule, including the one where the shrink and
      the grow both fire. */
  lemma RescaleOutcomes(len: nat, use: nat)
    requires use <= len
    ensures len - OVERSHOOT > use + DELTA ==> RescaledCapacity(len, use) == len - OVERSHOOT
    ensures len - OVERSHOOT == use + DELTA ==> RescaledCapacity(len, use) == len - OVERSHOOT + DELTA
    ensures len - OVERSHOOT < use + DELTA <= len - 1 ==> RescaledCapacity(len, use) == len
    ensures use + DELTA >= len ==> RescaledCapacity(len, use) == len + DELTA
  {
  }

  /** A capacity between DELTA and OVERSHOOT + DELTA slots above the count is
      left alone, so a run of calls with the same count settles. */
  lemma RescaleSettles(len: nat, use: nat)
    requires use <= len
    ensures RescaledCapacity(len, use) == len <==> use + DELTA < len < use + DELTA + OVERSHOOT
    ensures var r := RescaledCapacity(len, use); use + DELTA < r < use + DELTA + OVERSHOOT ==> RescaledCapacity(r, use) == r
  {
  }

  /** Below 2^31 slots the casts change nothing: as written and as meant
      agree. */
  lemma RescaleAsWrittenAgrees(len: nat, use: nat)
    requires use <= len < 0x7FFF_FFFE
    ensures RescaledCapacityAsWritten(len, use) == RescaledCapacity(len, use)
  {
  }

  /** At 2^31 - 2 slots the cast of `use + DELTA` to `int` turns negative, the
      shrink fires although no slot is spare, and the capacity ends below
      `use + 1`: the caller's store into slot `use` lands outside the array. */
  lemma RescaleAsWrittenOverflows()
    ensures RescaledCapacityAsWritten(0x7FFF_FFFE, 0x7FFF_FFFE) == 0x7FFF_FFF8
    ensures RescaledCapacityAsWritten(0x7FFF_FFFE, 0x7FFF_FFFE) < 0x7FFF_FFFE + 1
    ensures RescaledCapacity(0x7FFF_FFFE, 0x7FFF_FFFE) == 0x8000_0000
  {
  }

  /** What `realloc` leaves in a block of `|r|` slots: the old block's slots
      up to the shorter of the two lengths. Slots beyond the old block are
      indeterminate, so nothing is said about them. */
  ghost predicate Realloced(s: seq<Slot>, r: seq<Slot>)
  {
    forall i :: 0 <= i < |s| && i < |r| ==> r[i] == s[i]
  }

  /** `_array_rescale(&ptr, &len, use)`: rejects a count above the capacity,
      otherwise applies the rule and reallocates the slots. */
  method Rescale(ptr: array<Slot>, len: nat, use: nat) returns (e: ErrT, ptr': array<Slot>, len': nat)
    requires ptr.Length == len
    ensures use > len ==> e == InvalidParams && ptr' == ptr && len' == len
    ensures use <= len ==> e == Ok && len' == RescaledCapacity(len, use)
    ensures use <= len ==> fresh(ptr') && ptr'.Length == len' && Realloced(ptr[..], ptr'[..])
  {
    if use > len {
      return InvalidParams, ptr, len;
    }
    len' := len;
    if len' - OVERSHOOT >= use + DELTA {
      len' := len' - OVERSHOOT;
    }
    if use + DELTA >= len' {
      len' := len' + DELTA;
    }
    ptr' := new Slot[len'];
    forall i | 0 <= i < len' && i < len {
      ptr'[i] := ptr[i];
    }
    e := Ok;
  }

  /** The live slots survive a reallocation that keeps room for them. */
  lemma ReallocKeepsLive(s: seq<Slot>, r: seq<Slot>, use: nat)
    requires Realloced(s, r) && use <= |s| && use <= |r|
    ensures r[..use] == s[..use]
  {
  }

  /** The index of the last slot holding `x`, if any. */
  function LastMatch(s: seq<Slot>, x: Slot): (r: Option<nat>)
    ensures r.None? <==> x !in s
    ensures r.Some? ==> r.value < |s| && s[r.value] == x
    ensures r.Some? ==> forall j :: r.value < j < |s| ==> s[j] != x
  {
    if s == [] then None
    else if s[|s| - 1] == x then Some(|s| - 1)
    else LastMatch(s[..|s| - 1], x)
  }

  /** The `size_t` an optional index is reported as. */
  function IndexOrMax(r: Option<nat>): nat
  {
    if r.Some? then r.value else SIZE_MAX
  }

  /** `_array_search` as it is meant to work: every round compares slot `i`,
      so the last matching slot wins; -1 when none matches. */
  method Search(ptr: array<Slot>, len: nat, x: Bowl?) returns (e: ErrT, out: nat)
    requires len <= ptr.Length
    ensures x == null || len == 0 ==> e == InvalidParams
    ensures x != null && 0 < len ==> e == Ok && out == IndexOrMax(LastMatch(ptr[..len], Child(x)))
  {
    if x == null || len == 0 {
      return InvalidParams, 0;
    }
    out := SIZE_MAX;
    for i := 0 to len
      invariant out == IndexOrMax(LastMatch(ptr[..i], Child(x)))
    {
      assert ptr[..i + 1][..i] == ptr[..i];
      if ptr[i] == Child(x) {
        out := i;
      }
    }
    e := Ok;
  }

  /** `_array_search` as written: every round compares slot 0, so the result
      is the last round's index when slot 0 matches and -1 otherwise. */
  function SearchAsWritten(s: seq<Slot>, x: Slot): nat
    requires 0 < |s|
  {
    if s[0] == x then |s| - 1 else SIZE_MAX
  }

  /** Two children: as written, the second is reported absent and the first
      is reported at the second's index. */
  lemma SearchAsWrittenMisses(a: Bowl, b: Bowl)
    requires a != b
    ensures SearchAsWritten([Child(a), Child(b)], Child(b)) == SIZE_MAX
    ensures SearchAsWritten([Child(a), Child(b)], Child(a)) == 1
    ensures IndexOrMax(LastMatch([Child(a), Child(b)], Child(b))) == 1
    ensures IndexOrMax(LastMatch([Child(a), Child(b)], Child(a))) == 0
  {
    assert [Child(a), Child(b)][..1] == [Child(a)];
  }

  /** The slots after removing slot `idx` of the first `len`: later slots
      move down by one and slot `len - 1` keeps its old value. */
  function CompactLeft(s: seq<Slot>, idx: nat, len: nat): seq<Slot>
    requires idx < len <= |s|
  {
    s[..idx] + s[idx + 1..len] + [s[len - 1]] + s[len..]
  }

  /** Slot by slot: what stays, what moves down, and the duplicated last slot. */
  lemma CompactLeftAt(s: seq<Slot>, idx: nat, len: nat, k: nat)
    requires idx < len <= |s| && k < |s|
    ensures |CompactLeft(s, idx, len)| == |s|
    ensures CompactLeft(s, idx, len)[k] ==
      if k < idx then s[k] else if k < len - 1 then s[k + 1] else s[k]
  {
  }

  /** A sequence that agrees with the removal slot by slot is the removal. */
  lemma CompactLeftIs(s: seq<Slot>, t: seq<Slot>, idx: nat, len: nat)
    requires idx < len <= |s| == |t|
    requires forall k {:trigger t[k]} :: 0 <= k < |t| ==>
      t[k] == if k < idx then s[k] else if k < len - 1 then s[k + 1] else s[k]
    ensures t == CompactLeft(s, idx, len)
  {
    forall k | 0 <= k < |t|
      ensures t[k] == CompactLeft(s, idx, len)[k]
    {
      CompactLeftAt(s, idx, len, k);
    }
  }

  /** The removal drops one occurrence of the removed slot and duplicates the
      last slot of the range: nothing else is created or lost. */
  lemma CompactLeftCounts(s: seq<Slot>, idx: nat, len: nat)
    requires idx < len <= |s|
    ensures multiset(CompactLeft(s, idx, len)) == multiset(s) - multiset{s[idx]} + multiset{s[len - 1]}
  {
    calc {
      multiset(CompactLeft(s, idx, len));
      multiset(s[..idx]) + multiset(s[idx + 1..len]) + multiset{s[len - 1]} + multiset(s[len..]);
      { assert s == s[..idx] + [s[idx]] + s[idx + 1..len] + s[len..]; }
      multiset(s) - multiset{s[idx]} + multiset{s[len - 1]};
    }
  }

  /** `_array_remove` as it is meant to work: hands back slot `idx` and moves
      the later slots of the first `len` down by one. `prior` is what the
      caller's `*out` held; a rejected index leaves it as it was. */
  method Remove(ptr: array<Slot>, idx: nat, len: nat, prior: Slot) returns (e: ErrT, out: Slot)
    requires len <= ptr.Length
    modifies ptr
    ensures idx >= len ==> e == InvalidParams && out == prior && unchanged(ptr)
    ensures idx < len ==> e == Ok && out == old(ptr[idx]) && ptr[..] == CompactLeft(old(ptr[..]), idx, len)
  {
    if idx >= len {
      return InvalidParams, prior;
    }
    ghost var s := ptr[..];
    out := ptr[idx];
    var i := idx + 1;
    while i < len
      invariant idx + 1 <= i <= len
      invariant |s| == ptr.Length
      invariant forall k :: 0 <= k < idx ==> ptr[k] == s[k]
      invariant forall k :: idx <= k < i - 1 ==> ptr[k] == s[k + 1]
      invariant forall k :: i - 1 <= k < ptr.Length ==> ptr[k] == s[k]
    {
      ptr[i - 1] := ptr[i];
      i := i + 1;
    }
    CompactLeftIs(s, ptr[..], idx, len);
    e := Ok;
  }

  /** The slots after `n` rounds of the remove loop as written, whose guard
      `idx < len` never changes: round `j` copies slot `idx + j + 1` into
      slot `idx + j`. */
  function RemoveRoundsAsWritten(s: seq<Slot>, idx: nat, n: nat): (r: seq<Slot>)
    requires idx + n < |s|
    ensures |r| == |s|
  {
    if n == 0 then s else RemoveRoundsAsWritten(s, idx, n - 1)[idx + n - 1 := s[idx + n]]
  }

  /** The loop guard of `_array_remove` as written: `idx < len`, which no
      round changes. */
  predicate RemoveGuard(idx: nat, len: nat)
  {
    idx < len
  }

  /** Round `j` of the loop reads slot `idx + j + 1`; it lies in a buffer of
      `len` slots only while that index is below `len`. */
  predicate RoundInBounds(len: nat, idx: nat, j: nat)
  {
    idx + j + 1 < len
  }

  lemma {:induction false} RemoveRoundsAt(s: seq<Slot>, idx: nat, n: nat, k: nat)
    requires idx + n < |s| && k < |s|
    ensures RemoveRoundsAsWritten(s, idx, n)[k] == if idx <= k < idx + n then s[k + 1] else s[k]
  {
    if n > 0 {
      RemoveRoundsAt(s, idx, n - 1, k);
    }
  }

  /** Both callers pass the capacity as `len`. After `len - idx - 1` rounds the
      loop has done the whole compaction, but its guard still holds, so the
      next round reads slot `len`, one past the end of the slot array. */
  lemma RemoveAsWrittenOverruns(s: seq<Slot>, idx: nat)
    requires idx < |s|
    ensures RemoveRoundsAsWritten(s, idx, |s| - idx - 1) == CompactLeft(s, idx, |s|)
    ensures var n := |s| - idx - 1; RemoveGuard(idx, |s|) && !RoundInBounds(|s|, idx, n)
  {
    var n := |s| - idx - 1;
    forall k | 0 <= k < |s|
      ensures RemoveRoundsAsWritten(s, idx, n)[k] == CompactLeft(s, idx, |s|)[k]
    {
      RemoveRoundsAt(s, idx, n, k);
      CompactLeftAt(s, idx, |s|, k);
    }
  }
}

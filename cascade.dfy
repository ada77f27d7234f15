/** The release cascade: `bowl_free` (bowl.c) and `array_free` (array.c),
    which call each other down the tree of nodes. Nothing is modified in
    the model; each call returns its error code and the objects it hands to
    `free`, in order. A ghost `Tree` gives the shape the recursion follows. */
module Cascade {
  import opened Bowl
  import LeafData

  /** The shape below a node pointer: `Nil` for a null pointer (an `Empty`
      slot), else the node and one subtree per live slot of its store. */
  datatype Tree = Nil | Node(node: Bowl, kids: seq<Tree>)

  /** The result of a release: the error code and what was freed. */
  datatype Outcome = Outcome(err: ErrT, released: seq<object>)

  /** The routine a `switch` on the node type picks in `bowl_free`. */
  datatype FreeRoute = ToDataFree | ToArrayFree | Reject

  /** The pointer a slot hands to `bowl_free`. */
  function SlotPtr(s: Slot): Bowl?
  {
    if s.Child? then s.node else null
  }

  /** `t` describes what pointer `p` points at. */
  predicate Tracks(t: Tree, p: Bowl?)
  {
    (t.Nil? <==> p == null) && (t.Node? ==> t.node == p)
  }

  /** The value of a `case a | b:` label: the bitwise or of the two tags. */
  function CaseLabel(a: int, b: int): int
    requires 0 <= a < 0x100 && 0 <= b < 0x100
  {
    ((a as bv8) | (b as bv8)) as int
  }

  /** `bowl_free`'s switch as it is meant to be: data records for leaves,
      `array_free` for array and hash nodes, INVALID_STATE otherwise. */
  function FreeDispatch(kind: int): (r: FreeRoute)
    ensures r == ToDataFree <==> kind == LEAF
    ensures r == ToArrayFree <==> kind == ARRAY || kind == HASH
  {
    if kind == LEAF then ToDataFree
    else if kind == ARRAY || kind == HASH then ToArrayFree
    else Reject
  }

  /** The switch as written: `case ARRAY | HASH:` is the single label 3. */
  function FreeDispatchAsWritten(kind: int): FreeRoute
  {
    if kind == LEAF then ToDataFree
    else if kind == CaseLabel(ARRAY, HASH) then ToArrayFree
    else Reject
  }

  /** As written, the label is HASH alone, so an ARRAY node is refused with
      INVALID_STATE and never released; every other tag is routed alike. */
  lemma FreeDispatchAsWrittenRejectsArrays()
    ensures CaseLabel(ARRAY, HASH) == HASH
    ensures FreeDispatchAsWritten(ARRAY) == Reject && FreeDispatch(ARRAY) == ToArrayFree
    ensures forall k :: k != ARRAY ==> FreeDispatchAsWritten(k) == FreeDispatch(k)
  {
  }

  /** Each live slot of an array or hash node's store is a child pointer or
      null and has its subtree; other nodes have no subtrees. */
  ghost predicate Shaped(t: Tree)
    reads *
    decreases t
  {
    match t
    case Nil => true
    case Node(b, kids) =>
      if FreeDispatch(b.kind) == ToArrayFree && b.arr != null then
        b.arr.used == |kids| <= b.arr.ptr.Length
        && forall i :: 0 <= i < |kids| ==>
             !b.arr.ptr[i].Item? && Tracks(kids[i], SlotPtr(b.arr.ptr[i])) && Shaped(kids[i])
      else
        kids == []
  }

  /** What `bowl_free` on the tree's root returns and frees. */
  ghost function FreeNode(t: Tree): Outcome
    reads *
    decreases t, 2, 0
  {
    match t
    case Nil => Outcome(InvalidParams, [])
    case Node(b, _) =>
      var o := match FreeDispatch(b.kind)
        case ToDataFree =>
          if b.data == null then Outcome(InvalidParams, []) else Outcome(Ok, LeafData.Owned(b.data))
        case ToArrayFree => FreeStore(t)
        case Reject => Outcome(InvalidState, []);
      if o.err != Ok then o else Outcome(Ok, o.released + [b])
  }

  /** What `array_free` on the root returns and frees: its live children in
      order, stopping at the first failure, then the slot buffer and the
      store, whatever the children returned. */
  ghost function FreeStore(t: Tree): Outcome
    requires t.Node?
    reads *
    decreases t, 1, 0
  {
    var a := t.node.arr;
    if a == null then Outcome(InvalidState, [])
    else
      var store: BowlArr := a;
      var o := FreeKids(t, |t.kids|);
      Outcome(o.err, o.released + [store.ptr, store])
  }

  /** The first `n` children, released in order until one fails. */
  ghost function FreeKids(t: Tree, n: nat): Outcome
    requires t.Node? && n <= |t.kids|
    reads *
    decreases t, 0, n
  {
    if n == 0 then Outcome(Ok, [])
    else
      var o := FreeKids(t, n - 1);
      if o.err != Ok then o
      else
        var k := FreeNode(t.kids[n - 1]);
        Outcome(k.err, o.released + k.released)
  }

  /** Once a child fails, later children are not visited. */
  lemma {:induction false} ErrorPersists(t: Tree, m: nat, n: nat)
    requires t.Node? && m <= n <= |t.kids|
    requires FreeKids(t, m).err != Ok
    ensures FreeKids(t, n) == FreeKids(t, m)
    decreases n
  {
    if m < n {
      ErrorPersists(t, m, n - 1);
    }
  }

  /** `bowl_free(self)`. */
  method BowlFree(self: Bowl?, ghost t: Tree) returns (e: ErrT, released: seq<object>)
    requires Shaped(t) && Tracks(t, self)
    ensures Outcome(e, released) == FreeNode(t)
    decreases t, 2, 0
  {
    if self == null {
      return InvalidParams, [];
    }
    var route := FreeDispatch(self.kind);
    if route == ToDataFree {
      e, released := LeafData.DataFree(self.data);
    } else if route == ToArrayFree {
      e, released := ArrayFree(self, t);
    } else {
      e, released := InvalidState, [];
    }
    if e != Ok {
      return;
    }
    released := released + [self];
  }

  /** `array_free(self)`, with the error code starting at OK: the first
      failing child's error, or OK. It is modelled for array and hash nodes,
      as `bowl_free`'s switch reaches it; the growth path of
      `hash_insert_key` also calls it, on the node itself (see
      `HashLayer.GrowthReleaseAsWritten`). */
  method ArrayFree(self: Bowl?, ghost t: Tree) returns (e: ErrT, released: seq<object>)
    requires Shaped(t) && Tracks(t, self)
    requires self != null ==> FreeDispatch(self.kind) == ToArrayFree
    ensures self == null ==> e == InvalidParams && released == []
    ensures self != null ==> Outcome(e, released) == FreeStore(t)
    ensures self != null && self.arr != null ==> e == FirstFailure(KidErrs(t, |t.kids|), Ok)
    decreases t, 1, 0
  {
    if self == null {
      return InvalidParams, [];
    }
    if self.arr == null {
      return InvalidState, [];
    }
    var a: BowlArr := self.arr;
    e, released := Ok, [];
    var i := 0;
    while i < a.used
      invariant 0 <= i <= a.used
      invariant e == Ok && Outcome(e, released) == FreeKids(t, i)
    {
      var ek, rk := BowlFree(SlotPtr(a.ptr[i]), t.kids[i]);
      e, released := ek, released + rk;
      if e != Ok {
        ErrorPersists(t, i + 1, a.used);
        break;
      }
      i := i + 1;
    }
    released := released + [a.ptr, a];
    KidsFirstFailure(t, |t.kids|);
  }

  /** Every node below can be released: a leaf holds a data record, an
      array or hash node holds a store, and no live slot is null. */
  ghost predicate WellFormed(t: Tree)
    reads *
    decreases t
  {
    match t
    case Nil => false
    case Node(b, kids) =>
      match FreeDispatch(b.kind)
      case ToDataFree => b.data != null
      case ToArrayFree => b.arr != null && forall i :: 0 <= i < |kids| ==> WellFormed(kids[i])
      case Reject => false
  }

  /** `bowl_free` succeeds exactly on well-formed trees: one null slot, one
      leaf without a record, one unknown tag anywhere below makes it fail. */
  lemma {:induction false} FreeSucceedsIff(t: Tree)
    requires Shaped(t)
    ensures FreeNode(t).err == Ok <==> WellFormed(t)
    decreases t, 1, 0
  {
    match t
    case Nil =>
    case Node(b, kids) =>
      if FreeDispatch(b.kind) == ToArrayFree && b.arr != null {
        KidsSucceedIff(t, |kids|);
      }
  }

  lemma {:induction false} KidsSucceedIff(t: Tree, n: nat)
    requires t.Node? && Shaped(t) && n <= |t.kids|
    ensures FreeKids(t, n).err == Ok <==> forall i :: 0 <= i < n ==> WellFormed(t.kids[i])
    decreases t, 0, n
  {
    if n > 0 {
      KidsSucceedIff(t, n - 1);
      FreeSucceedsIff(t.kids[n - 1]);
    }
  }

  /** The node itself is freed, last, exactly when `bowl_free` returns OK;
      on failure it stays allocated. */
  lemma NodeReleasedLastIffOk(t: Tree)
    requires t.Node?
    ensures var o := FreeNode(t);
      o.err == Ok <==> |o.released| > 0 && o.released[|o.released| - 1] == t.node
  {
  }

  /** The objects a node holds itself: the node, its data record and
      literal buffer, its store and slot buffer. */
  ghost function Own(b: Bowl): set<object>
    reads *
  {
    {b as object}
    + (if b.data == null then {} else Objects(LeafData.Owned(b.data)))
    + (if b.arr == null then {} else {b.arr as object, b.arr.ptr})
  }

  /** The objects a node owns: its own and what its live children own. */
  ghost function Footprint(t: Tree): set<object>
    reads *
    decreases t, 1, 0
  {
    match t
    case Nil => {}
    case Node(b, kids) => Own(b) + KidsFootprint(t, |kids|)
  }

  ghost function KidsFootprint(t: Tree, n: nat): set<object>
    requires t.Node? && n <= |t.kids|
    reads *
    decreases t, 0, n
  {
    if n == 0 then {} else KidsFootprint(t, n - 1) + Footprint(t.kids[n - 1])
  }

  /** Only owned objects are freed: never a RAW payload, never a hash
      entry outside the live slots. */
  lemma {:induction false} FreeWithinFootprint(t: Tree)
    requires Shaped(t)
    ensures forall o :: o in FreeNode(t).released ==> o in Footprint(t)
    decreases t, 1, 0
  {
    match t
    case Nil =>
    case Node(b, kids) =>
      if FreeDispatch(b.kind) == ToArrayFree && b.arr != null {
        KidsWithinFootprint(t, |kids|);
      }
  }

  lemma {:induction false} KidsWithinFootprint(t: Tree, n: nat)
    requires t.Node? && Shaped(t) && n <= |t.kids|
    ensures forall o :: o in FreeKids(t, n).released ==> o in KidsFootprint(t, n)
    decreases t, 0, n
  {
    if n > 0 {
      KidsWithinFootprint(t, n - 1);
      FreeWithinFootprint(t.kids[n - 1]);
    }
  }

  /** An object owned by the first `n` children is owned by one of them. */
  lemma {:induction false} KidsFootprintMember(t: Tree, n: nat, o: object)
    requires t.Node? && n <= |t.kids|
    ensures o in KidsFootprint(t, n) <==> exists i :: 0 <= i < n && o in Footprint(t.kids[i])
  {
    if n > 0 {
      KidsFootprintMember(t, n - 1, o);
    }
  }

  /** The tree is an ownership tree: a node holds only the payload its type
      reads, and no object is owned twice, neither by a node and one of its
      children nor by two children. */
  ghost predicate Separate(t: Tree)
    reads *
    decreases t
  {
    match t
    case Nil => true
    case Node(b, kids) =>
      (FreeDispatch(b.kind) == ToDataFree ==> b.arr == null)
      && (FreeDispatch(b.kind) == ToArrayFree ==> b.data == null)
      && (forall i :: 0 <= i < |kids| ==> Separate(kids[i]) && Own(b) !! Footprint(kids[i]))
      && (forall i, j :: 0 <= i < j < |kids| ==> Footprint(kids[i]) !! Footprint(kids[j]))
  }

  /** The objects a release sequence names. */
  ghost function Objects(s: seq<object>): set<object>
  {
    set o | o in s
  }

  /** No object occurs twice. */
  ghost predicate Distinct(s: seq<object>)
  {
    forall i, j :: 0 <= i < j < |s| ==> s[i] != s[j]
  }

  lemma DistinctAppend(a: seq<object>, b: seq<object>)
    requires Distinct(a) && Distinct(b)
    requires forall o :: o in a ==> o !in b
    ensures Distinct(a + b)
  {
    forall i, j | 0 <= i < j < |a + b|
      ensures (a + b)[i] != (a + b)[j]
    {
      if j < |a| {
      } else if i >= |a| {
        assert (a + b)[i] == b[i - |a|] && (a + b)[j] == b[j - |a|];
      } else {
        assert (a + b)[i] in a && (a + b)[j] == b[j - |a|];
      }
    }
  }

  /** A successful release frees everything the tree owns, each object once:
      on a well-formed ownership tree `bowl_free` returns OK and its release
      sequence lists exactly the footprint, without repetition. (The entries
      of a hash node are not in its footprint; see `HashFreeLeaksEntries`.) */
  lemma {:induction false} FreeReleasesFootprint(t: Tree)
    requires Shaped(t) && WellFormed(t) && Separate(t)
    ensures FreeNode(t).err == Ok
    ensures Objects(FreeNode(t).released) == Footprint(t)
    ensures Distinct(FreeNode(t).released)
    decreases t, 1, 0
  {
    var b := t.node;
    if FreeDispatch(b.kind) == ToDataFree {
      var d: Data := b.data;
      assert LeafData.Owned(d) == [d] || LeafData.Owned(d) == [d.literal as object, d];
      assert KidsFootprint(t, |t.kids|) == {};
    } else {
      StoreReleasesFootprint(t);
    }
  }

  /** The array branch of `FreeReleasesFootprint`: the children's objects,
      then the slot buffer, the store and the node. */
  lemma {:induction false} StoreReleasesFootprint(t: Tree)
    requires Shaped(t) && WellFormed(t) && Separate(t)
    requires t.Node? && FreeDispatch(t.node.kind) == ToArrayFree
    ensures FreeNode(t).err == Ok
    ensures Objects(FreeNode(t).released) == Footprint(t)
    ensures Distinct(FreeNode(t).released)
    decreases t, 0, |t.kids| + 1
  {
    var b := t.node;
    var a: BowlArr := b.arr;
    KidsReleaseFootprint(t, |t.kids|);
    var kids := FreeKids(t, |t.kids|).released;
    var own := [a.ptr, a as object, b as object];
    assert Own(b) == Objects(own) && Distinct(own);
    forall o | o in KidsFootprint(t, |t.kids|)
      ensures o !in Own(b)
    {
      KidsFootprintMember(t, |t.kids|, o);
    }
    ReleaseUnion(kids, own, KidsFootprint(t, |t.kids|), Own(b));
    assert FreeNode(t).released == kids + own;
  }

  lemma {:induction false} KidsReleaseFootprint(t: Tree, n: nat)
    requires t.Node? && Shaped(t) && WellFormed(t) && Separate(t) && n <= |t.kids|
    requires FreeDispatch(t.node.kind) == ToArrayFree
    ensures FreeKids(t, n).err == Ok
    ensures Objects(FreeKids(t, n).released) == KidsFootprint(t, n)
    ensures Distinct(FreeKids(t, n).released)
    decreases t, 0, n
  {
    if n > 0 {
      KidsReleaseFootprint(t, n - 1);
      var k := t.kids[n - 1];
      assert Shaped(k) && WellFormed(k) && Separate(k);
      FreeReleasesFootprint(k);
      var before, after := FreeKids(t, n - 1).released, FreeNode(k).released;
      KidsStep(t, n);
      KidsApart(t, n);
      ReleaseUnion(before, after, KidsFootprint(t, n - 1), Footprint(k));
    }
  }

  /** When the first `n - 1` children and child `n - 1` are all released,
      the first `n` are, in that order. */
  lemma KidsStep(t: Tree, n: nat)
    requires t.Node? && 0 < n <= |t.kids|
    requires FreeKids(t, n - 1).err == Ok && FreeNode(t.kids[n - 1]).err == Ok
    ensures FreeKids(t, n) == Outcome(Ok, FreeKids(t, n - 1).released + FreeNode(t.kids[n - 1]).released)
  {
  }

  /** What the first `n - 1` children own is apart from what child `n - 1`
      owns. */
  lemma KidsApart(t: Tree, n: nat)
    requires t.Node? && Separate(t) && 0 < n <= |t.kids|
    ensures KidsFootprint(t, n - 1) !! Footprint(t.kids[n - 1])
  {
    var mine, last := KidsFootprint(t, n - 1), Footprint(t.kids[n - 1]);
    forall o | o in mine
      ensures o !in last
    {
      KidsFootprintMember(t, n - 1, o);
      var i :| 0 <= i < n - 1 && o in Footprint(t.kids[i]);
      assert Footprint(t.kids[i]) !! Footprint(t.kids[n - 1]);
    }
  }

  lemma SetOfAppend(a: seq<object>, b: seq<object>)
    ensures Objects(a + b) == Objects(a) + Objects(b)
  {
  }

  /** Two releases without repetition, of disjoint sets of objects, one
      after the other, release the union of the sets without repetition. */
  lemma ReleaseUnion(before: seq<object>, after: seq<object>, mine: set<object>, theirs: set<object>)
    requires Distinct(before) && Objects(before) == mine
    requires Distinct(after) && Objects(after) == theirs
    requires mine !! theirs
    ensures Distinct(before + after) && Objects(before + after) == mine + theirs
  {
    forall o | o in before
      ensures o !in after
    {
      assert o in mine;
    }
    DistinctAppend(before, after);
    SetOfAppend(before, after);
  }

  /** The error of the child loop is the first failure among the children's
      releases, as a chain of `if(e) break;` steps has it. */
  ghost function KidErrs(t: Tree, n: nat): seq<ErrT>
    requires t.Node? && n <= |t.kids|
    reads *
  {
    if n == 0 then [] else KidErrs(t, n - 1) + [FreeNode(t.kids[n - 1]).err]
  }

  lemma {:induction false} KidsFirstFailure(t: Tree, n: nat)
    requires t.Node? && n <= |t.kids|
    ensures FreeKids(t, n).err == FirstFailure(KidErrs(t, n), Ok)
  {
    if n > 0 {
      KidsFirstFailure(t, n - 1);
      FirstFailureSnoc(KidErrs(t, n - 1), FreeNode(t.kids[n - 1]).err);
    }
  }

  /** A hash node keeps `used` at 0, so freeing it releases its slot buffer,
      its store and itself, and none of its entries or their children. */
  lemma HashFreeLeaksEntries(t: Tree)
    requires Shaped(t) && t.Node? && t.node.kind == HASH
    requires t.node.arr != null && t.node.arr.used == 0
    ensures FreeNode(t) == Outcome(Ok, [t.node.arr.ptr, t.node.arr, t.node])
  {
    assert FreeKids(t, |t.kids|) == Outcome(Ok, []);
    assert FreeStore(t) == Outcome(Ok, [t.node.arr.ptr, t.node.arr]);
  }

  /** `array_free`'s result as written: `e` is declared without a value and
      only assigned in the loop, so with no live slot the function returns
      whatever the uninitialised `e` held (`junk`). */
  ghost function ArrayFreeErrAsWritten(t: Tree, junk: ErrT): ErrT
    requires t.Node?
    reads *
  {
    if |t.kids| == 0 then junk else FreeKids(t, |t.kids|).err
  }

  /** With one or more live slots the two agree; on an empty store (every
      hash node, a fresh array node) the written code can report a failure
      where the intended one reports OK, and `bowl_free` then keeps the node. */
  lemma ArrayFreeAsWrittenUndefined(t: Tree, junk: ErrT)
    requires t.Node? && t.node.arr != null
    ensures |t.kids| > 0 ==> ArrayFreeErrAsWritten(t, junk) == FreeStore(t).err
    ensures |t.kids| == 0 ==> ArrayFreeErrAsWritten(t, junk) == junk && FreeStore(t).err == Ok
  {
  }
}

/** The data model shared by every part of the bowl engine (bowl.h): error
    codes, the node and leaf-data type tags, the node record, the leaf-data
    record, the slot array behind ARRAY and HASH nodes, and the two header
    macros CHECK and REAL_STRLEN. */
module Bowl {

  /** A pointer that may be NULL, for values that are not objects. */
  datatype Option<+T> = None | Some(value: T)

  /** An unsigned 8-bit byte. */
  type Byte = b: int | 0 <= b < 0x100

  /** A C string is modelled by the bytes before its terminating NUL. */
  type CString = seq<Byte>

  ghost predicate NulFree(s: seq<Byte>)
  {
    forall i :: 0 <= i < |s| ==> s[i] != 0
  }

  /** `err_t`: the closed set of return codes. */
  datatype ErrT = Ok | Err | NotImplemented | InvalidParams | MallocFailed | InvalidState

  /** The integer value of each `err_t` enumerator. */
  function Code(e: ErrT): (c: int)
    ensures c == 0 <==> e == Ok
    ensures -1 <= c <= 4
  {
    match e
    case Ok => 0
    case Err => -1
    case NotImplemented => 1
    case InvalidParams => 2
    case MallocFailed => 3
    case InvalidState => 4
  }

  /** Reads an integer back as an `err_t`, if it is one of the enumerators. */
  function FromCode(c: int): (r: Option<ErrT>)
    ensures r.Some? <==> -1 <= c <= 4
  {
    if c == 0 then Some(Ok)
    else if c == -1 then Some(Err)
    else if c == 1 then Some(NotImplemented)
    else if c == 2 then Some(InvalidParams)
    else if c == 3 then Some(MallocFailed)
    else if c == 4 then Some(InvalidState)
    else None
  }

  /** Every code decodes to the error it came from, so no two errors share
      a code and `if(e) return e;` hands the caller the very error it got. */
  lemma CodeRoundTrip(e: ErrT)
    ensures FromCode(Code(e)) == Some(e)
  {
  }

  /** The result of a chain of `if(e) return e;` steps: the first failure
      among `results`, or `none` when every step succeeded. */
  function FirstFailure(results: seq<ErrT>, none: ErrT): ErrT
  {
    if results == [] then none
    else if results[0] != Ok then results[0]
    else FirstFailure(results[1..], none)
  }

  /** The chain returns `none` when every step succeeded; otherwise it
      returns the error of its first failing step, one of the step errors. */
  lemma {:induction false} FirstFailureFirst(results: seq<ErrT>, none: ErrT)
    ensures (forall i :: 0 <= i < |results| ==> results[i] == Ok) ==> FirstFailure(results, none) == none
    ensures forall i :: 0 <= i < |results| && results[i] != Ok && (forall j :: 0 <= j < i ==> results[j] == Ok) ==>
      FirstFailure(results, none) == results[i]
    ensures (exists i :: 0 <= i < |results| && results[i] != Ok) ==>
      FirstFailure(results, none) != Ok && FirstFailure(results, none) in results
  {
    if results != [] {
      var rest := results[1..];
      FirstFailureFirst(rest, none);
      assert forall i :: 1 <= i < |results| ==> results[i] == rest[i - 1];
    }
  }

  /** A failure in the chain stops it: whatever comes after the first
      failure has no effect on the outcome. */
  lemma {:induction false} FirstFailureStops(pre: seq<ErrT>, f: ErrT, post: seq<ErrT>, none: ErrT)
    requires forall i :: 0 <= i < |pre| ==> pre[i] == Ok
    requires f != Ok
    ensures FirstFailure(pre + [f] + post, none) == f
  {
    if pre != [] {
      assert (pre + [f] + post)[1..] == pre[1..] + [f] + post;
      FirstFailureStops(pre[1..], f, post, none);
    }
  }

  /** One more step at the end of a chain matters only if every earlier step
      succeeded. */
  lemma {:induction false} FirstFailureSnoc(results: seq<ErrT>, last: ErrT)
    ensures FirstFailure(results + [last], Ok) ==
      if FirstFailure(results, Ok) != Ok then FirstFailure(results, Ok) else last
  {
    if results != [] {
      assert (results + [last])[1..] == results[1..] + [last];
      FirstFailureSnoc(results[1..], last);
    }
  }

  /** `CHECK(c, err)`: returns `err` from the enclosing function exactly when
      `c` is false (or a NULL pointer), and otherwise has no effect; `Ok`
      stands for "fall through". */
  function Check(c: bool, err: ErrT): (r: ErrT)
    requires err != Ok
    ensures r == Ok <==> c
    ensures r != Ok ==> r == err
  {
    if !c then err else Ok
  }

  /** `strlen`: the number of bytes before the first NUL of a buffer. */
  function Strlen(buf: seq<Byte>): (n: nat)
    requires 0 in buf
    ensures n < |buf| && buf[n] == 0
    ensures forall i :: 0 <= i < n ==> buf[i] != 0
  {
    if buf[0] == 0 then 0 else 1 + Strlen(buf[1..])
  }

  /** The NUL-terminated buffer that holds a C string. */
  function Terminated(s: CString): seq<Byte>
  {
    s + [0]
  }

  /** `REAL_STRLEN(s)`: the size of the buffer a NUL-terminated copy of `s`
      needs, one more than `strlen(s)`. */
  function RealStrlen(s: CString): nat
  {
    |s| + 1
  }

  /** A NUL-terminated copy has REAL_STRLEN bytes and `strlen` reads the
      string back out of it. */
  lemma {:induction false} TerminatedRoundTrip(s: CString)
    requires NulFree(s)
    ensures 0 in Terminated(s)
    ensures |Terminated(s)| == RealStrlen(s)
    ensures Strlen(Terminated(s)) == |s|
    ensures Terminated(s)[..Strlen(Terminated(s))] == s
  {
    assert Terminated(s)[|s|] == 0;
    if s != [] {
      assert Terminated(s)[1..] == Terminated(s[1..]);
      TerminatedRoundTrip(s[1..]);
    }
  }

  /** `data_t`: the tag of a leaf's payload. */
  const LITERAL: int := 0
  const INTEGER: int := 1
  const REAL: int := 2
  const BOOLEAN: int := 3
  const RAW: int := 4

  /** `bowl_t`: the tag of a node. Numbering starts at LEAF = 1, so the
      zero of a freshly cleared node means "no kind". */
  const LEAF: int := 1
  const ARRAY: int := 2
  const HASH: int := 3
  const LINKED: int := 4

  predicate IsKind(t: int)
  {
    t == LEAF || t == ARRAY || t == HASH || t == LINKED
  }

  lemma NoKindIsZero()
    ensures !IsKind(0)
    ensures LEAF < ARRAY < HASH < LINKED
  {
  }

  /** One slot of a slot array. An ARRAY node stores child nodes directly;
      a HASH node stores `hash_item` records, each holding its own copy of
      the key and the child. NULL is `Empty`. */
  datatype Slot = Empty | Child(node: Bowl) | Item(key: CString, child: Bowl)

  /** `struct bowl`: a node. The payload union is split into the two
      pointers it can hold (`arr` is `_pl.array`); the tag says which one
      is meaningful. */
  class Bowl {
    var kind: int
    var data: Data?
    var arr: BowlArr?

    /** `malloc` followed by `memset(0)` and the store of the tag. */
    constructor (kind: int)
      ensures this.kind == kind && data == null && arr == null
    {
      this.kind := kind;
      data := null;
      arr := null;
    }
  }

  /** `struct data`: a leaf's payload, a `data_t` tag and a union whose
      unused members stay zero (the record is `calloc`ed). */
  class Data {
    var tag: int
    var literal: array?<Byte>
    var boolean: bool
    var integer: int
    var raw: object?

    constructor (tag: int)
      ensures this.tag == tag
      ensures literal == null && !boolean && integer == 0 && raw == null
    {
      this.tag := tag;
      literal := null;
      boolean := false;
      integer := 0;
      raw := null;
    }
  }

  /** `(size_t) -1`, the largest size; as an index it means "not found". */
  const SIZE_MAX: nat := 0xFFFF_FFFF_FFFF_FFFF

  /** `struct bowl_arr`: capacity `size`, count `used` and the slots. */
  class BowlArr {
    var size: nat
    var used: nat
    var ptr: array<Slot>

    ghost predicate Valid()
      reads this
    {
      ptr.Length == size && 0 < size < SIZE_MAX && used <= size
    }

    /** The header `malloc`ed and a `calloc`ed slot array of `size` NULLs. */
    constructor (size: nat)
      requires 0 < size < SIZE_MAX
      ensures Valid() && this.size == size && used == 0 && fresh(ptr)
      ensures forall i :: 0 <= i < size ==> ptr[i] == Empty
    {
      this.size := size;
      used := 0;
      ptr := new Slot[size](_ => Empty);
    }
  }

  /** The objects a store operation on node `b` may write: its slot-array
      header and the slot array itself. */
  ghost function StoreFrame(b: Bowl?): set<object>
    reads b
    reads if b != null && b.arr != null then {b.arr} else {}
  {
    if b == null || b.arr == null then {} else var a: BowlArr := b.arr; {a, a.ptr}
  }

  /** The whole slot array of a store. */
  ghost function Slots(a: BowlArr): seq<Slot>
    reads a, a.ptr
  {
    a.ptr[..]
  }

  /** The local invariant of a node: a present slot array is well formed. */
  ghost predicate NodeValid(b: Bowl)
    reads b
    reads if b.arr != null then {b.arr} else {}
  {
    b.arr != null ==> b.arr.Valid()
  }
}

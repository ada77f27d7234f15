/** Leaf payloads, data.c: a `struct data` record (a `data_t` tag and one
    payload) wrapped in a LEAF node, and its release. */
module LeafData {
  import opened Bowl
  import Utils

  /** The variadic argument of `data_malloc`, by the C type the caller
      passes for each tag: a string for LITERAL, a `long` for INTEGER, a
      `double` for REAL (its value is not modelled), an `int` for BOOLEAN
      and a pointer for RAW. */
  datatype VarArg = Str(s: CString) | Long(l: int) | Double | Int(i: int) | Pointer(p: object?)

  predicate IsDataType(tag: int)
  {
    tag == LITERAL || tag == INTEGER || tag == REAL || tag == BOOLEAN || tag == RAW
  }

  /** The argument is of the type the tag reads (any argument goes with an
      unknown tag, which is rejected before it is read). */
  ghost predicate ArgFits(tag: int, arg: VarArg)
  {
    (tag == LITERAL ==> arg.Str? && NulFree(arg.s))
    && (tag == INTEGER ==> arg.Long?)
    && (tag == REAL ==> arg.Double?)
    && (tag == BOOLEAN ==> arg.Int?)
    && (tag == RAW ==> arg.Pointer?)
  }

  /** The union members other than the tag's own keep the zero of `calloc`. */
  ghost predicate OnePayload(d: Data)
    reads d
  {
    (d.tag != LITERAL ==> d.literal == null)
    && (d.tag != BOOLEAN ==> !d.boolean)
    && (d.tag != INTEGER ==> d.integer == 0)
    && (d.tag != RAW ==> d.raw == null)
  }

  /** The objects a data record owns: its literal buffer, if it is a
      LITERAL, and the record itself. A RAW pointer is not owned. */
  ghost function Owned(d: Data): seq<object>
    reads d
  {
    if d.tag == LITERAL && d.literal != null then [d.literal, d] else [d]
  }

  /** `data_malloc(&self, type, arg)`: a new LEAF node with a new data record
      holding the converted argument. An unknown tag is INVALID_PARAMS and
      no node is produced. */
  method DataMalloc(tag: int, arg: VarArg) returns (e: ErrT, leaf: Bowl?)
    requires ArgFits(tag, arg)
    ensures e == Ok <==> IsDataType(tag)
    ensures e != Ok ==> e == InvalidParams && leaf == null
    ensures e == Ok ==> leaf != null && fresh(leaf) && leaf.kind == LEAF && leaf.arr == null
    ensures e == Ok ==> var d := leaf.data;
      d != null && fresh(d) && d.tag == tag && OnePayload(d)
      && (forall o :: o in Owned(d) ==> fresh(o))
    ensures e == Ok && tag == LITERAL ==> var lit := leaf.data.literal;
      lit != null && lit.Length == RealStrlen(arg.s) && lit[..] == Terminated(arg.s)
      && Strlen(lit[..]) == |arg.s| && lit[..Strlen(lit[..])] == arg.s
    ensures e == Ok && tag == INTEGER ==> leaf.data.integer == Utils.Int32(arg.l)
    ensures e == Ok && tag == BOOLEAN ==> leaf.data.boolean == (arg.i != 0)
    ensures e == Ok && tag == RAW ==> leaf.data.raw == arg.p
  {
    if !IsDataType(tag) {
      return InvalidParams, null;
    }
    var d := new Data(tag);
    if tag == LITERAL {
      var s := arg.s;
      var lit := new Byte[RealStrlen(s)](_ => 0);
      forall i | 0 <= i < |s| {
        lit[i] := s[i];
      }
      d.literal := lit;
      assert lit[..] == Terminated(s);
      TerminatedRoundTrip(s);
    } else if tag == INTEGER {
      d.integer := Utils.Int32(arg.l);
    } else if tag == BOOLEAN {
      d.boolean := arg.i != 0;
    } else if tag == RAW {
      d.raw := arg.p;
    }
    leaf := new Bowl(LEAF);
    leaf.data := d;
    e := Ok;
  }

  /** `data_free(self)`: releases the literal buffer of a LITERAL record and
      then the record; a RAW pointer is never released. */
  method DataFree(d: Data?) returns (e: ErrT, released: seq<object>)
    ensures d == null ==> e == InvalidParams && released == []
    ensures d != null ==> e == Ok && released == Owned(d)
  {
    if d == null {
      return InvalidParams, [];
    }
    released := [];
    if d.tag == LITERAL && d.literal != null {
      released := [d.literal];
    }
    released := released + [d];
    e := Ok;
  }

  /** What a record owns is released by `data_free` and nothing else: the
      record comes last, a literal buffer before it, and a RAW leaf's
      pointer is not among them unless it aliases the record. */
  lemma OwnedShape(d: Data)
    ensures |Owned(d)| >= 1 && Owned(d)[|Owned(d)| - 1] == d
    ensures d.tag != LITERAL ==> Owned(d) == [d]
    ensures d.tag == RAW && d.raw != d ==> d.raw !in Owned(d)
  {
  }
}

/**
  Whole runs on a msg_p2p_recv: any sequence of accessor calls, nested updates,
  parses, merges, copies and clears keeps the has-bits invariant and does to the
  message what the calls say, one after the other.  The object merged or copied
  from, and the nested object adopted, are themselves the results of runs.
 */
module Runs {
  import opened Wire
  import opened Message
  import opened Members
  import opened MsgP2pRecvClass
  import opened Streams
  import C = MsgContentClass
  import R = ContentRuns
  import S = Schemas

  datatype Op =
    | PutString(k: nat, b: bytes)
    | AppendString(k: nat, b: bytes)
    | AllocateString(k: nat, isNull: bool, b: bytes)
    | ReleaseString(k: nat)
    | DropString(k: nat)
    | PutNumber(k: nat, n: int)
    | DropNumber(k: nat)
    | EditNested(calls: seq<R.ContentOp>)
    | AdoptNested(calls: seq<R.ContentOp>)
    | AdoptNone
    | ReleaseNested
    | ClearNested
    | ParseBytes(bs: bytes, depth: nat)
    | MergeOther(ops: seq<Op>)
    | CopyOther(ops: seq<Op>)
    | ClearAll

  /** The calls the class offers: members that exist, values of their types. */
  predicate Callable(op: Op) {
    match op
    case PutString(k, _) => k < STRINGS
    case AppendString(k, _) => k < STRINGS
    case AllocateString(k, _, _) => k < STRINGS
    case ReleaseString(k) => k < STRINGS
    case DropString(k) => k < STRINGS
    case PutNumber(k, n) => BASE <= k < BITS && Fits(k, n)
    case DropNumber(k) => BASE <= k < BITS
    case EditNested(calls) => R.AllCallable(calls)
    case AdoptNested(calls) => R.AllCallable(calls)
    case MergeOther(ops) => forall o | o in ops :: Callable(o)
    case CopyOther(ops) => forall o | o in ops :: Callable(o)
    case _ => true
  }

  predicate AllCallable(ops: seq<Op>) { forall o | o in ops :: Callable(o) }

  ghost function PutBit(e: R.Effect, k: nat, v: Value): (r: R.Effect) {
    if k < BITS then R.PutEffect(e, Shape().fieldOf[k], v) else R.Open
  }

  /** The bytes of a string field, none if it is absent. */
  function Text(v: Value): bytes { if v.Raw? then v.data else [] }

  ghost function StringOf(e: R.Effect, k: nat): bytes {
    if k < BITS then Text(R.SlotOf(e, Shape().fieldOf[k])) else []
  }

  ghost function PutNested(e: R.Effect, nested: R.Effect): (r: R.Effect) {
    if nested.Now? then R.PutEffect(e, MSG_FIELD, Sub(nested.msg)) else R.Open
  }

  /** What one call does to the message; only Clear and CopyFrom make up for a failed parse. */
  ghost function Apply(e: R.Effect, op: Op): (r: R.Effect)
    decreases op, 0
  {
    match op
    case PutString(k, b) => PutBit(e, k, Raw(b))
    case AppendString(k, b) => PutBit(e, k, Raw(StringOf(e, k) + b))
    case AllocateString(k, isNull, b) => PutBit(e, k, if isNull then Absent else Raw(b))
    case ReleaseString(k) => PutBit(e, k, Absent)
    case DropString(k) => PutBit(e, k, Absent)
    case PutNumber(k, n) => PutBit(e, k, Num(n))
    case DropNumber(k) => PutBit(e, k, Absent)
    case EditNested(calls) =>
      PutNested(e, R.ApplyAll(R.Now(Existing(R.SlotOf(e, MSG_FIELD), S.MsgContent)), calls))
    case AdoptNested(calls) => PutNested(e, R.ApplyAll(R.Now(Empty(S.MsgContent)), calls))
    case AdoptNone => R.PutEffect(e, MSG_FIELD, Absent)
    case ReleaseNested => R.PutEffect(e, MSG_FIELD, Absent)
    case ClearNested => R.PutEffect(e, MSG_FIELD, Absent)
    case ParseBytes(bs, depth) => if e.Now? then R.ParseEffect(S.MsgP2pRecv, depth, e.msg, bs) else R.Open
    case MergeOther(ops) => R.MergeEffect(e, ApplyAll(R.Now(Empty(S.MsgP2pRecv)), ops))
    case CopyOther(ops) => ApplyAll(R.Now(Empty(S.MsgP2pRecv)), ops)
    case ClearAll => R.Now(Empty(S.MsgP2pRecv))
  }

  ghost function ApplyAll(e: R.Effect, ops: seq<Op>): (r: R.Effect)
    decreases ops, 0
  {
    if ops == [] then e else Apply(ApplyAll(e, ops[..|ops| - 1]), ops[|ops| - 1])
  }

  lemma ApplyNext(e: R.Effect, ops: seq<Op>, i: nat)
    requires i < |ops|
    ensures ApplyAll(e, ops[..i + 1]) == Apply(ApplyAll(e, ops[..i]), ops[i])
  {
    assert ops[..i + 1][..i] == ops[..i];
  }

  /** mutable_ of a string followed by append on what it returns. */
  method Append(obj: MsgP2pRecv, k: nat, b: bytes)
    requires obj.Valid() && k < STRINGS
    modifies obj`hasBits, obj`strs
    ensures obj.Valid() && |old(obj.Value()).slots| == BITS && Shape().fieldOf[k] < BITS
    ensures var i := Shape().fieldOf[k];
            obj.Value() == Put(old(obj.Value()), i, Raw(Text(old(obj.Value()).slots[i]) + b))
  {
    hide Shape, Sound, MsgP2pRecv.Linked, Invariant, ValueOf;
    Bounds(Shape(), obj.Snap());
    obj.StringHeld(k);
    obj.MutableString(k);
    obj.SetString(k, obj.strs[k] + b);
  }

  /** mutable_msg() followed by any calls on the object it returns. */
  method UpdateNested(obj: MsgP2pRecv, calls: seq<R.ContentOp>, ghost e: R.Effect)
    requires obj.Valid() && R.AllCallable(calls) && R.Matches(e, obj.Value())
    modifies obj`hasBits, obj`msg, obj`content, obj`below, obj`leaves
    modifies obj.below`hasBits, obj.below`parts, obj.below`contents, obj.below`unknown, obj.leaves`val
    ensures obj.Valid() && fresh(obj.below - old(obj.below)) && fresh(obj.leaves - old(obj.leaves))
    ensures R.Matches(Apply(e, EditNested(calls)), obj.Value())
  {
    hide Shape, Invariant, MessageOf, MsgP2pRecv.Linked, C.MsgContent.Valid, C.MsgContent.Value, Existing;
    hide R.AllCallable, R.ApplyAll;
    ghost var before := obj.Snap();
    obj.Footprint();
    var p := obj.MutableMsg();
    R.Run(p, calls, R.Now(p.Value()));
    obj.Settle(before);
  }

  method Adopt(obj: MsgP2pRecv, calls: seq<R.ContentOp>, ghost e: R.Effect)
    requires obj.Valid() && R.AllCallable(calls) && R.Matches(e, obj.Value())
    modifies obj`hasBits, obj`msg, obj`content, obj`below, obj`leaves
    ensures obj.Valid() && fresh(obj.below) && fresh(obj.leaves)
    ensures R.Matches(Apply(e, AdoptNested(calls)), obj.Value())
  {
    hide Shape, MsgP2pRecv.Valid, MsgP2pRecv.Value, C.MsgContent.Valid, C.MsgContent.Value, R.AllCallable, R.ApplyAll;
    var p := R.Build(calls);
    obj.SetAllocatedMsg(p);
  }

  method ParseFrom(obj: MsgP2pRecv, bs: bytes, depth: nat) returns (ok: bool)
    requires obj.Valid()
    modifies obj`hasBits, obj`strs, obj`msg, obj`content, obj`below, obj`leaves, obj`nums, obj`unknown
    modifies obj.below`hasBits, obj.below`parts, obj.below`contents, obj.below`unknown, obj.leaves`val
    ensures obj.Valid() && fresh(obj.below - old(obj.below)) && fresh(obj.leaves - old(obj.leaves))
    ensures R.Matches(R.ParseEffect(S.MsgP2pRecv, depth, old(obj.Value()), bs), obj.Value())
  {
    hide MsgP2pRecv.Valid, MsgP2pRecv.Value, Parse;
    var input := new CodedInputStream(bs, depth);
    ok := obj.MergePartialFromCodedStream(input);
  }

  /** A new object and the calls that bring it into some state. */
  method Build(ops: seq<Op>) returns (obj: MsgP2pRecv)
    requires AllCallable(ops)
    ensures fresh(obj) && fresh(obj.below) && fresh(obj.leaves) && obj.Valid()
    ensures R.Matches(ApplyAll(R.Now(Empty(S.MsgP2pRecv)), ops), obj.Value())
    decreases ops, 1
  {
    hide MsgP2pRecv.Valid, MsgP2pRecv.Value, ApplyAll, AllCallable, IsFresh;
    obj := new MsgP2pRecv();
    Run(obj, ops, R.Now(Empty(S.MsgP2pRecv)));
  }

  /** MergeFrom or CopyFrom with another object, itself the result of a run. */
  method Combine(obj: MsgP2pRecv, ops: seq<Op>, copy: bool, ghost e: R.Effect)
    requires obj.Valid() && AllCallable(ops) && R.Matches(e, obj.Value())
    modifies obj`hasBits, obj`strs, obj`msg, obj`content, obj`below, obj`leaves, obj`nums, obj`unknown
    modifies obj.below`hasBits, obj.below`parts, obj.below`contents, obj.below`unknown, obj.leaves`val
    ensures obj.Valid() && fresh(obj.below - old(obj.below)) && fresh(obj.leaves - old(obj.leaves))
    ensures var other := ApplyAll(R.Now(Empty(S.MsgP2pRecv)), ops);
            R.Matches(if copy then other else R.MergeEffect(e, other), obj.Value())
    decreases ops, 2
  {
    hide MsgP2pRecv.Valid, MsgP2pRecv.Value, ApplyAll, AllCallable, Merge;
    var other := Build(ops);
    if copy {
      obj.CopyFrom(other);
    } else {
      obj.MergeFrom(other);
    }
  }

  predicate OfString(op: Op) {
    op.PutString? || op.AppendString? || op.AllocateString? || op.ReleaseString? || op.DropString?
  }

  /** The accessors of the strings. */
  method OnString(obj: MsgP2pRecv, op: Op, ghost e: R.Effect)
    requires obj.Valid() && OfString(op) && Callable(op) && R.Matches(e, obj.Value())
    modifies obj`hasBits, obj`strs
    ensures obj.Valid() && R.Matches(Apply(e, op), obj.Value())
  {
    hide Shape, MsgP2pRecv.Valid, MsgP2pRecv.Value;
    match op
    case PutString(k, b) => obj.SetString(k, b);
    case AppendString(k, b) => Append(obj, k, b);
    case AllocateString(k, isNull, b) => obj.SetAllocatedString(k, isNull, b);
    case ReleaseString(k) => var _, _ := obj.ReleaseString(k);
    case DropString(k) => obj.ClearString(k);
  }

  predicate OfNumber(op: Op) { op.PutNumber? || op.DropNumber? }

  /** The accessors of the numbers. */
  method OnNumber(obj: MsgP2pRecv, op: Op, ghost e: R.Effect)
    requires obj.Valid() && OfNumber(op) && Callable(op) && R.Matches(e, obj.Value())
    modifies obj`hasBits, obj`nums
    ensures obj.Valid() && R.Matches(Apply(e, op), obj.Value())
  {
    hide Shape, MsgP2pRecv.Valid, MsgP2pRecv.Value;
    match op
    case PutNumber(k, n) => obj.SetNumber(k, n);
    case DropNumber(k) => obj.ClearNumber(k);
  }

  predicate OfNested(op: Op) {
    op.EditNested? || op.AdoptNested? || op.AdoptNone? || op.ReleaseNested? || op.ClearNested?
  }

  /** The accessors of the nested message. */
  method OnNested(obj: MsgP2pRecv, op: Op, ghost e: R.Effect)
    requires obj.Valid() && OfNested(op) && Callable(op) && R.Matches(e, obj.Value())
    modifies obj`hasBits, obj`msg, obj`content, obj`below, obj`leaves
    modifies obj.below`hasBits, obj.below`parts, obj.below`contents, obj.below`unknown, obj.leaves`val
    ensures obj.Valid() && fresh(obj.below - old(obj.below)) && fresh(obj.leaves - old(obj.leaves))
    ensures R.Matches(Apply(e, op), obj.Value())
  {
    hide Shape, MsgP2pRecv.Valid, MsgP2pRecv.Value, R.AllCallable, R.ApplyAll;
    match op
    case EditNested(calls) => UpdateNested(obj, calls, e);
    case AdoptNested(calls) => Adopt(obj, calls, e);
    case AdoptNone => obj.SetAllocatedMsg(null);
    case ReleaseNested => var _ := obj.ReleaseMsg();
    case ClearNested => obj.ClearMsg();
  }

  /** One call. */
  method Perform(obj: MsgP2pRecv, op: Op, ghost e: R.Effect)
    requires obj.Valid() && Callable(op) && R.Matches(e, obj.Value())
    modifies obj`hasBits, obj`strs, obj`msg, obj`content, obj`below, obj`leaves, obj`nums, obj`unknown
    modifies obj.below`hasBits, obj.below`parts, obj.below`contents, obj.below`unknown, obj.leaves`val
    ensures obj.Valid() && fresh(obj.below - old(obj.below)) && fresh(obj.leaves - old(obj.leaves))
    ensures R.Matches(Apply(e, op), obj.Value())
    ensures op.ClearAll? ==> IsFresh(Shape(), obj.Snap())
    decreases op, 2
  {
    hide Shape, MsgP2pRecv.Valid, MsgP2pRecv.Value, IsFresh, R.ParseEffect, R.MergeEffect, R.ApplyAll;
    if OfString(op) {
      OnString(obj, op, e);
    } else if OfNumber(op) {
      OnNumber(obj, op, e);
    } else if OfNested(op) {
      OnNested(obj, op, e);
    } else {
      match op
      case ParseBytes(bs, depth) => var _ := ParseFrom(obj, bs, depth);
      case MergeOther(ops) => Combine(obj, ops, false, e);
      case CopyOther(ops) => Combine(obj, ops, true, e);
      case ClearAll => obj.Clear();
    }
  }

  /** Every run keeps the invariant, and its outcome is the calls applied in order.  In particular a
      run that ends in Clear leaves a new object, whatever came before, failed parses included. */
  method Run(obj: MsgP2pRecv, ops: seq<Op>, ghost start: R.Effect)
    requires obj.Valid() && AllCallable(ops) && R.Matches(start, obj.Value())
    modifies obj`hasBits, obj`strs, obj`msg, obj`content, obj`below, obj`leaves, obj`nums, obj`unknown
    modifies obj.below`hasBits, obj.below`parts, obj.below`contents, obj.below`unknown, obj.leaves`val
    ensures obj.Valid() && fresh(obj.below - old(obj.below)) && fresh(obj.leaves - old(obj.leaves))
    ensures R.Matches(ApplyAll(start, ops), obj.Value())
    ensures ops != [] && ops[|ops| - 1].ClearAll? ==> IsFresh(Shape(), obj.Snap())
    decreases ops, 0
  {
    hide MsgP2pRecv.Valid, MsgP2pRecv.Value, Shape, IsFresh, Apply, Callable;
    assert ops[..|ops|] == ops;
    for i := 0 to |ops|
      invariant obj.Valid() && fresh(obj.below - old(obj.below)) && fresh(obj.leaves - old(obj.leaves))
      invariant R.Matches(ApplyAll(start, ops[..i]), obj.Value())
      invariant i > 0 && ops[i - 1].ClearAll? ==> IsFresh(Shape(), obj.Snap())
    {
      ApplyNext(start, ops, i);
      Perform(obj, ops[i], ApplyAll(start, ops[..i]));
    }
  }
}

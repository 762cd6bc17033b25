/**
  Whole runs on a msg_content: any sequence of part accessors, parses, merges,
  copies and clears.  The object merged or copied from is itself the result of a
  run, so it may hold parts that are kept but cleared.
 */
module ContentRuns {
  import opened Wire
  import opened Message
  import opened Members
  import opened MsgContentClass
  import opened Nested
  import opened Streams
  import S = Schemas

  datatype ContentOp =
    | EditPart(k: nat, m: Msg)
    | AdoptPart(k: nat, m: Msg)
    | AdoptNoPart(k: nat)
    | ReleasePart(k: nat)
    | ClearPart(k: nat)
    | ParseContent(bs: bytes, depth: nat)
    | MergeContent(ops: seq<ContentOp>)
    | CopyContent(ops: seq<ContentOp>)
    | ClearContent

  /** The calls the class offers: parts that exist, messages of their types. */
  predicate Callable(op: ContentOp) {
    match op
    case EditPart(k, m) => k < BITS && Conforms(SubSchema(Shape(), k), m)
    case AdoptPart(k, m) => k < BITS && Conforms(SubSchema(Shape(), k), m)
    case AdoptNoPart(k) => k < BITS
    case ReleasePart(k) => k < BITS
    case ClearPart(k) => k < BITS
    case MergeContent(ops) => forall o | o in ops :: Callable(o)
    case CopyContent(ops) => forall o | o in ops :: Callable(o)
    case _ => true
  }

  predicate AllCallable(ops: seq<ContentOp>) { forall o | o in ops :: Callable(o) }

  /** The message after some calls; a parse that fails leaves it open. */
  datatype Effect = Now(msg: Msg) | Open

  predicate Matches(e: Effect, m: Msg) { e.Now? ==> e.msg == m }

  ghost function ParseEffect(s: Schema, depth: nat, m: Msg, bs: bytes): (e: Effect) {
    var o := Parse(s, depth, m, bs);
    if o.Failed? then Open else Now(o.msg)
  }

  ghost function MergeEffect(a: Effect, b: Effect): (e: Effect) {
    if a.Now? && b.Now? then Now(Merge(a.msg, b.msg)) else Open
  }

  ghost function PutEffect(e: Effect, i: nat, v: Value): (r: Effect) {
    if e.Now? && i < |e.msg.slots| then Now(Put(e.msg, i, v)) else Open
  }

  ghost function SlotOf(e: Effect, i: nat): (v: Value) {
    if e.Now? && i < |e.msg.slots| then e.msg.slots[i] else Absent
  }

  /** What one call does to the message. */
  ghost function Apply(e: Effect, op: ContentOp): (r: Effect)
    decreases op, 0
  {
    match op
    case EditPart(k, m) =>
      if k < BITS then PutEffect(e, k, Sub(Merge(Existing(SlotOf(e, k), SubSchema(Shape(), k)), m))) else Open
    case AdoptPart(k, m) => PutEffect(e, k, Sub(m))
    case AdoptNoPart(k) => PutEffect(e, k, Absent)
    case ReleasePart(k) => PutEffect(e, k, Absent)
    case ClearPart(k) => PutEffect(e, k, Absent)
    case ParseContent(bs, depth) => if e.Now? then ParseEffect(S.MsgContent, depth, e.msg, bs) else Open
    case MergeContent(ops) => MergeEffect(e, ApplyAll(Now(Empty(S.MsgContent)), ops))
    case CopyContent(ops) => ApplyAll(Now(Empty(S.MsgContent)), ops)
    case ClearContent => Now(Empty(S.MsgContent))
  }

  ghost function ApplyAll(e: Effect, ops: seq<ContentOp>): (r: Effect)
    decreases ops, 0
  {
    if ops == [] then e else Apply(ApplyAll(e, ops[..|ops| - 1]), ops[|ops| - 1])
  }

  lemma ApplyNext(e: Effect, ops: seq<ContentOp>, i: nat)
    requires i < |ops|
    ensures ApplyAll(e, ops[..i + 1]) == Apply(ApplyAll(e, ops[..i]), ops[i])
  {
    assert ops[..i + 1][..i] == ops[..i];
  }

  /** mutable_() of a part followed by MergeFrom on the object it returns. */
  method Edit(obj: MsgContent, k: nat, m: Msg)
    requires obj.Valid() && k < BITS && Conforms(SubSchema(Shape(), k), m)
    modifies obj`hasBits, obj`parts, obj`contents, obj.Parts()`val
    ensures obj.Valid() && fresh(obj.Parts() - old(obj.Parts())) && |old(obj.Value()).slots| == BITS
    ensures obj.Value()
         == Put(old(obj.Value()), k, Sub(Merge(Existing(old(obj.Value()).slots[k], SubSchema(Shape(), k)), m)))
  {
    hide Shape, Sound, MsgContent.Valid, MsgContent.Value, Conforms, Merge, Existing;
    var source := new SubMessage(SubSchema(Shape(), k));
    assert source !in obj.Parts();
    source.val := m;
    obj.UpdatePart(k, source);
  }

  method Adopt(obj: MsgContent, k: nat, m: Msg)
    requires obj.Valid() && k < BITS && Conforms(SubSchema(Shape(), k), m)
    modifies obj`hasBits, obj`parts, obj`contents
    ensures obj.Valid() && fresh(obj.Parts() - old(obj.Parts()))
    ensures obj.Value() == Put(old(obj.Value()), k, Sub(m))
  {
    hide Shape, Sound, MsgContent.Valid, MsgContent.Value, Conforms;
    var p := new SubMessage(SubSchema(Shape(), k));
    assert p !in obj.Parts();
    p.val := m;
    obj.SetAllocatedPart(k, p);
  }

  method ParseFrom(obj: MsgContent, bs: bytes, depth: nat) returns (ok: bool)
    requires obj.Valid()
    modifies obj`hasBits, obj`parts, obj`contents, obj`unknown, obj.Parts()`val
    ensures obj.Valid() && fresh(obj.Parts() - old(obj.Parts()))
    ensures Matches(ParseEffect(S.MsgContent, depth, old(obj.Value()), bs), obj.Value())
  {
    hide MsgContent.Valid, MsgContent.Value, Parse;
    var input := new CodedInputStream(bs, depth);
    ok := obj.MergePartialFromCodedStream(input);
  }

  /** A new object and the calls that bring it into some state. */
  method Build(ops: seq<ContentOp>) returns (obj: MsgContent)
    requires AllCallable(ops)
    ensures fresh(obj) && fresh(obj.Parts()) && obj.Valid()
    ensures Matches(ApplyAll(Now(Empty(S.MsgContent)), ops), obj.Value())
    decreases ops, 1
  {
    hide MsgContent.Valid, MsgContent.Value, ApplyAll, AllCallable, IsFresh;
    obj := new MsgContent();
    Run(obj, ops, Now(Empty(S.MsgContent)));
  }

  method Perform(obj: MsgContent, op: ContentOp, ghost e: Effect)
    requires obj.Valid() && Callable(op) && Matches(e, obj.Value())
    modifies obj`hasBits, obj`parts, obj`contents, obj`unknown, obj.Parts()`val
    ensures obj.Valid() && fresh(obj.Parts() - old(obj.Parts()))
    ensures Matches(Apply(e, op), obj.Value())
    ensures op.ClearContent? ==> IsFresh(Shape(), obj.Snap())
    decreases op, 2
  {
    hide MsgContent.Valid, MsgContent.Value, Shape, IsFresh, Parse, Merge, Conforms;
    match op
    case EditPart(k, m) => Edit(obj, k, m);
    case AdoptPart(k, m) => Adopt(obj, k, m);
    case AdoptNoPart(k) => obj.SetAllocatedPart(k, null);
    case ReleasePart(k) => var _ := obj.ReleasePart(k);
    case ClearPart(k) => obj.ClearPart(k);
    case ParseContent(bs, depth) => var _ := ParseFrom(obj, bs, depth);
    case MergeContent(ops) =>
      var other := Build(ops);
      obj.MergeFrom(other);
    case CopyContent(ops) =>
      var other := Build(ops);
      obj.CopyFrom(other);
    case ClearContent => obj.Clear();
  }

  /** Every run keeps the invariant, and the message is what the calls make of it, one after the other. */
  method Run(obj: MsgContent, ops: seq<ContentOp>, ghost start: Effect)
    requires obj.Valid() && AllCallable(ops) && Matches(start, obj.Value())
    modifies obj`hasBits, obj`parts, obj`contents, obj`unknown, obj.Parts()`val
    ensures obj.Valid() && fresh(obj.Parts() - old(obj.Parts()))
    ensures Matches(ApplyAll(start, ops), obj.Value())
    ensures ops != [] && ops[|ops| - 1].ClearContent? ==> IsFresh(Shape(), obj.Snap())
    decreases ops, 0
  {
    hide MsgContent.Valid, MsgContent.Value, Shape, IsFresh, Apply, Callable;
    assert ops[..|ops|] == ops;
    for i := 0 to |ops|
      invariant obj.Valid() && fresh(obj.Parts() - old(obj.Parts()))
      invariant Matches(ApplyAll(start, ops[..i]), obj.Value())
      invariant i > 0 && ops[i - 1].ClearContent? ==> IsFresh(Shape(), obj.Snap())
    {
      ApplyNext(start, ops, i);
      Perform(obj, ops[i], ApplyAll(start, ops[..i]));
    }
  }
}

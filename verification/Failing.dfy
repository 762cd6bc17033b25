/**
  What a parse leaves in the object, a parse that fails included.  The records in
  front of the failing one have been read; of the failing one, an int32 keeps its old
  value with its has-bit set, a nested message holds what its own parse left, and a
  packed run keeps the values that were read.  What is left open is the content of an
  unsigned number or a string that could not be read, both present then, and records
  that a failing skip may add.
 */
module Failing {
  import opened Wire
  import opened Unknown
  import opened Message
  import opened MergeLaws
  import C = Concat

  /** The values of a packed run in front of the first one that cannot be read. */
  function RunPrefix(w: Width, bs: bytes): (ns: seq<int>)
    decreases |bs|
  {
    if bs == [] || ReadVarint64(bs).Bad? then []
    else [FromWire(w, ReadVarint64(bs).value)] + RunPrefix(w, ReadVarint64(bs).rest)
  }

  /** When the whole run can be read, that is all of it. */
  lemma {:induction false} WholeRun(w: Width, bs: bytes)
    requires ReadPacked(w, bs).Run?
    ensures RunPrefix(w, bs) == ReadPacked(w, bs).ns
    decreases |bs|
  {
    if bs != [] { WholeRun(w, ReadVarint64(bs).rest); }
  }

  function DoubleOf(v: Value): bytes { if v.Raw? then v.data else [0, 0, 0, 0, 0, 0, 0, 0] }

  /** What a slot may hold after its value could not be read. */
  predicate LeavesValue(k: Kind, depth: nat, cur: Value, wireType: nat, bs: bytes, v: Value)
    decreases |bs|, 1
  {
    match k
    case Scalar(w) => v.Num? && if w == I32 then v.n == NumberOf(cur) else InRange(w, v.n)
    case Double => v == Raw(DoubleOf(cur))
    case Bytes => v.Raw?
    case Repeated(w) =>
      v == Nums(NumsOf(cur) + if wireType == 0 || ReadSize(bs).Bad? then []
                              else RunPrefix(w, Clamp(ReadSize(bs).rest, ReadSize(bs).value)))
    case Message(s) => v.Sub? && LeavesNested(s, depth, Existing(cur, s), bs, v.msg)
    case RepeatedMessage(s) =>
      && v.Subs? && |v.msgs| == |SubsOf(cur)| + 1 && v.msgs[..|SubsOf(cur)|] == SubsOf(cur)
      && LeavesNested(s, depth, Empty(s), bs, v.msgs[|SubsOf(cur)|])
  }

  /** What a nested message may hold after it was read, successfully or not. */
  predicate LeavesNested(s: Schema, depth: nat, m: Msg, bs: bytes, x: Msg)
    decreases |bs|, 0
  {
    match ReadSize(bs)
    case Bad => x == m
    case Got(n, rest) => if depth == 0 then x == m else Leaves(s, depth - 1, m, Clamp(rest, n), x)
  }

  predicate LeavesField(s: Schema, depth: nat, m: Msg, tag: nat, bs: bytes, x: Msg)
    decreases |bs|, 2
  {
    var i := Find(s.fields, tag / 8);
    if Knows(s, tag) && i < |m.slots| then
      && i < |x.slots| && x == Put(m, i, x.slots[i])
      && LeavesValue(s.fields[i].kind, depth, m.slots[i], tag % 8, bs, x.slots[i])
    else x.slots == m.slots && m.unknown <= x.unknown
  }

  /** What the object may hold when the loop ends. */
  predicate Leaves(s: Schema, depth: nat, m: Msg, bs: bytes, x: Msg)
    decreases |bs|, 3
  {
    if bs == [] || ReadVarint32(bs).Bad? || ReadVarint32(bs).value == 0 then x == m
    else
      var Got(tag, rest) := ReadVarint32(bs);
      match ReadField(s, depth, m, tag, rest)
      case Bad => LeavesField(s, depth, m, tag, rest, x)
      case Got(m', rest') => Leaves(s, depth, m', rest', x)
  }

  // ------------------------------------------------------------- the loop

  /** From `m0` in front of `bs0` the loop has got to `m` in front of `bs`. */
  ghost predicate Follows(s: Schema, depth: nat, m0: Msg, bs0: bytes, m: Msg, bs: bytes) {
    && Parse(s, depth, m0, bs0) == Parse(s, depth, m, bs)
    && forall x :: Leaves(s, depth, m, bs, x) ==> Leaves(s, depth, m0, bs0, x)
  }

  lemma FollowsStart(s: Schema, depth: nat, m: Msg, bs: bytes)
    ensures Follows(s, depth, m, bs, m, bs)
  {
  }

  lemma FollowsOn(s: Schema, depth: nat, m0: Msg, bs0: bytes, m1: Msg, bs1: bytes, m2: Msg, bs2: bytes)
    requires Follows(s, depth, m0, bs0, m1, bs1) && Follows(s, depth, m1, bs1, m2, bs2)
    ensures Follows(s, depth, m0, bs0, m2, bs2)
  {
  }

  /** One turn of the loop: how it ends, what it leaves, or where it goes on. */
  lemma Turn(s: Schema, depth: nat, m0: Msg, bs0: bytes, m: Msg, bs: bytes)
    requires Follows(s, depth, m0, bs0, m, bs)
    ensures bs == [] ==> Parse(s, depth, m0, bs0) == Complete(m) && Leaves(s, depth, m0, bs0, m)
    ensures bs != [] && (ReadVarint32(bs).Bad? || ReadVarint32(bs).value == 0) ==>
              Parse(s, depth, m0, bs0) == Stopped(m) && Leaves(s, depth, m0, bs0, m)
    ensures bs != [] && ReadVarint32(bs).Got? && ReadVarint32(bs).value != 0 ==>
              var Got(tag, rest) := ReadVarint32(bs);
              match ReadField(s, depth, m, tag, rest)
              case Bad =>
                && Parse(s, depth, m0, bs0) == Failed
                && forall x :: LeavesField(s, depth, m, tag, rest, x) ==> Leaves(s, depth, m0, bs0, x)
              case Got(m', rest') => Follows(s, depth, m0, bs0, m', rest')
  {
    hide ReadField, LeavesField;
    if bs != [] && ReadVarint32(bs).Got? && ReadVarint32(bs).value != 0 {
      var Got(tag, rest) := ReadVarint32(bs);
      if ReadField(s, depth, m, tag, rest).Bad? {
        forall x | LeavesField(s, depth, m, tag, rest, x) ensures Leaves(s, depth, m0, bs0, x) {
          assert Leaves(s, depth, m, bs, x);
        }
      }
    }
  }

  // ------------------------------------------------------- one such outcome

  function RemainsValue(k: Kind, depth: nat, cur: Value, wireType: nat, bs: bytes): (v: Value)
    ensures LeavesValue(k, depth, cur, wireType, bs, v)
    decreases |bs|, 1
  {
    match k
    case Scalar(w) => Num(if w == I32 then NumberOf(cur) else 0)
    case Double => Raw(DoubleOf(cur))
    case Bytes => if cur.Raw? then cur else Raw([])
    case Repeated(w) =>
      Nums(NumsOf(cur) + if wireType == 0 || ReadSize(bs).Bad? then []
                         else RunPrefix(w, Clamp(ReadSize(bs).rest, ReadSize(bs).value)))
    case Message(s) => Sub(RemainsNested(s, depth, Existing(cur, s), bs))
    case RepeatedMessage(s) => Subs(SubsOf(cur) + [RemainsNested(s, depth, Empty(s), bs)])
  }

  function RemainsNested(s: Schema, depth: nat, m: Msg, bs: bytes): (x: Msg)
    ensures LeavesNested(s, depth, m, bs, x)
    decreases |bs|, 0
  {
    if ReadSize(bs).Bad? || depth == 0 then m
    else Remains(s, depth - 1, m, Clamp(ReadSize(bs).rest, ReadSize(bs).value))
  }

  /** The loop's object at the end, if what is left open is zero for a number and the old content for a string. */
  function Remains(s: Schema, depth: nat, m: Msg, bs: bytes): (x: Msg)
    ensures Leaves(s, depth, m, bs, x)
    decreases |bs|, 2
  {
    if bs == [] || ReadVarint32(bs).Bad? || ReadVarint32(bs).value == 0 then m
    else
      var Got(tag, rest) := ReadVarint32(bs);
      match ReadField(s, depth, m, tag, rest)
      case Got(m', rest') => Remains(s, depth, m', rest')
      case Bad =>
        var i := Find(s.fields, tag / 8);
        if Knows(s, tag) && i < |m.slots| then
          Put(m, i, RemainsValue(s.fields[i].kind, depth, m.slots[i], tag % 8, rest))
        else m
  }

  // ----------------------------------------------------- what that amounts to

  /** A parse that does not fail leaves its result and nothing else. */
  lemma {:induction false} LeavesResult(s: Schema, depth: nat, m: Msg, bs: bytes, x: Msg)
    requires !Parse(s, depth, m, bs).Failed?
    ensures Leaves(s, depth, m, bs, x) <==> x == Parse(s, depth, m, bs).msg
    decreases |bs|
  {
    if bs != [] && ReadVarint32(bs).Got? && ReadVarint32(bs).value != 0 {
      var Got(tag, rest) := ReadVarint32(bs);
      var Got(m', rest') := ReadField(s, depth, m, tag, rest);
      LeavesResult(s, depth, m', rest', x);
    }
  }

  /** Whole records in front are read first, and what is left is decided by what follows them. */
  lemma {:induction false} LeavesBehind(s: Schema, depth: nat, m: Msg, a: bytes, b: bytes, x: Msg)
    requires C.Whole(depth, a) && Parse(s, depth, m, a).Complete?
    ensures Leaves(s, depth, m, a + b, x) <==> Leaves(s, depth, Parse(s, depth, m, a).msg, b, x)
    decreases |a|
  {
    if a == [] {
      assert a + b == b;
    } else {
      VarintExtend(a, b);
      var Got(tag, rest) := ReadVarint32(a);
      C.ReadFieldExtend(s, depth, m, tag, rest, b);
      var Got(m', rest') := ReadField(s, depth, m, tag, rest);
      LeavesBehind(s, depth, m', rest', b, x);
    }
  }

  /** The message at the record that could not be read, and the slot of that record. */
  datatype Failure = At(msg: Msg, slot: nat)

  /** Where the loop gives up. */
  function FailedAt(s: Schema, depth: nat, m: Msg, bs: bytes): (f: Failure)
    decreases |bs|
  {
    if bs == [] || ReadVarint32(bs).Bad? || ReadVarint32(bs).value == 0 then At(m, |s.fields|)
    else
      var Got(tag, rest) := ReadVarint32(bs);
      match ReadField(s, depth, m, tag, rest)
      case Bad => At(m, SlotOfTag(s, tag))
      case Got(m', rest') => FailedAt(s, depth, m', rest')
  }

  /** Every other field and every unknown record is as it was when the failing record was met. */
  lemma {:induction false} OthersKept(s: Schema, depth: nat, m: Msg, bs: bytes, x: Msg)
    requires |m.slots| == |s.fields| && Leaves(s, depth, m, bs, x)
    ensures var f := FailedAt(s, depth, m, bs);
            && |x.slots| == |f.msg.slots| == |s.fields| && f.msg.unknown <= x.unknown
            && forall j | 0 <= j < |x.slots| && j != f.slot :: x.slots[j] == f.msg.slots[j]
    decreases |bs|
  {
    if bs != [] && ReadVarint32(bs).Got? && ReadVarint32(bs).value != 0 {
      var Got(tag, rest) := ReadVarint32(bs);
      if ReadField(s, depth, m, tag, rest).Got? {
        var Got(m', rest') := ReadField(s, depth, m, tag, rest);
        OthersKept(s, depth, m', rest', x);
      }
    }
  }

  /** What a parse leaves is a message of the schema. */
  lemma {:induction false} LeavesConforms(s: Schema, depth: nat, m: Msg, bs: bytes, x: Msg)
    requires Conforms(s, m) && Leaves(s, depth, m, bs, x)
    ensures Conforms(s, x)
    decreases |bs|, 3
  {
    if bs != [] && ReadVarint32(bs).Got? && ReadVarint32(bs).value != 0 {
      var Got(tag, rest) := ReadVarint32(bs);
      if ReadField(s, depth, m, tag, rest).Got? {
        var Got(m', rest') := ReadField(s, depth, m, tag, rest);
        ReadFieldConforms(s, depth, m, tag, rest);
        LeavesConforms(s, depth, m', rest', x);
      } else if Knows(s, tag) {
        var i := Find(s.fields, tag / 8);
        LeavesValueConforms(s.fields[i].kind, depth, m.slots[i], tag % 8, rest, x.slots[i]);
      }
    }
  }

  lemma {:induction false} LeavesValueConforms(k: Kind, depth: nat, cur: Value, wireType: nat, bs: bytes, v: Value)
    requires ConformsValue(k, cur) && LeavesValue(k, depth, cur, wireType, bs, v)
    ensures ConformsValue(k, v)
    decreases |bs|, 1
  {
    match k
    case Message(s) =>
      EmptyConforms(s);
      LeavesNestedConforms(s, depth, Existing(cur, s), bs, v.msg);
    case RepeatedMessage(s) =>
      EmptyConforms(s);
      LeavesNestedConforms(s, depth, Empty(s), bs, v.msgs[|SubsOf(cur)|]);
      assert v.msgs == SubsOf(cur) + [v.msgs[|SubsOf(cur)|]];
    case _ =>
  }

  lemma {:induction false} LeavesNestedConforms(s: Schema, depth: nat, m: Msg, bs: bytes, x: Msg)
    requires Conforms(s, m) && LeavesNested(s, depth, m, bs, x)
    ensures Conforms(s, x)
    decreases |bs|, 0
  {
    if ReadSize(bs).Got? && depth > 0 {
      LeavesConforms(s, depth - 1, m, Clamp(ReadSize(bs).rest, ReadSize(bs).value), x);
    }
  }
}

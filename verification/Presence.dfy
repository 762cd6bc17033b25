/** Which fields are set after a parse, and when the message is initialized. */
module Presence {
  import opened Wire
  import opened Unknown
  import opened Message
  import opened MergeLaws
  import S = Schemas

  /** The tags the parse loop meets, in order, for an input it reads to the end. */
  function TagsSeen(s: Schema, depth: nat, m: Msg, bs: bytes): (ts: seq<nat>)
    decreases |bs|
  {
    if bs == [] || ReadVarint32(bs).Bad? || ReadVarint32(bs).value == 0 then []
    else
      var Got(tag, rest) := ReadVarint32(bs);
      match ReadField(s, depth, m, tag, rest)
      case Bad => [tag]
      case Got(m', rest') => [tag] + TagsSeen(s, depth, m', rest')
  }

  /** A record for field `i`, with a wire type that the field accepts, was met. */
  predicate Occurred(s: Schema, ts: seq<nat>, i: nat) {
    exists t | t in ts :: Knows(s, t) && Find(s.fields, t / 8) == i
  }

  predicate HasBit(k: Kind) { !k.Repeated? && !k.RepeatedMessage? }

  lemma OccurredSplit(s: Schema, t: nat, ts: seq<nat>, i: nat)
    ensures Occurred(s, [t] + ts, i) <==> (Knows(s, t) && Find(s.fields, t / 8) == i) || Occurred(s, ts, i)
  {
    assert forall x | x in [t] + ts :: x == t || x in ts;
    assert t in [t] + ts && forall x | x in ts :: x in [t] + ts;
  }

  lemma ReadFieldPresence(s: Schema, depth: nat, m: Msg, tag: nat, bs: bytes, i: nat)
    requires Conforms(s, m) && i < |s.fields| && HasBit(s.fields[i].kind)
    requires ReadField(s, depth, m, tag, bs).Got?
    ensures var m' := ReadField(s, depth, m, tag, bs).value;
            && |m'.slots| == |m.slots|
            && (!m'.slots[i].Absent? <==> !m.slots[i].Absent? || (Knows(s, tag) && Find(s.fields, tag / 8) == i))
  {
  }

  /** After a parse, a singular field is set exactly when it was set before or a record with
      an acceptable tag occurred; a record with the wrong wire type never sets it. */
  lemma {:induction false} PresentIffOccurred(s: Schema, depth: nat, m: Msg, bs: bytes, i: nat)
    requires Conforms(s, m) && i < |s.fields| && HasBit(s.fields[i].kind)
    requires Parse(s, depth, m, bs).Complete?
    ensures |Parse(s, depth, m, bs).msg.slots| == |s.fields|
    ensures !Parse(s, depth, m, bs).msg.slots[i].Absent?
        <==> !m.slots[i].Absent? || Occurred(s, TagsSeen(s, depth, m, bs), i)
    decreases |bs|
  {
    if bs != [] {
      var Got(tag, rest) := ReadVarint32(bs);
      var Got(m', rest') := ReadField(s, depth, m, tag, rest);
      ReadFieldConforms(s, depth, m, tag, rest);
      ReadFieldPresence(s, depth, m, tag, rest, i);
      PresentIffOccurred(s, depth, m', rest', i);
      OccurredSplit(s, tag, TagsSeen(s, depth, m', rest'), i);
    }
  }

  lemma OccurredIsTag(s: Schema, ts: seq<nat>, i: nat)
    requires S.Consecutive(s) && i < |s.fields| && !s.fields[i].kind.Repeated?
    ensures Occurred(s, ts, i) <==> MakeTag(i + 1, WireType(s.fields[i].kind)) in ts
  {
    forall t | t in ts
      ensures Knows(s, t) && Find(s.fields, t / 8) == i <==> t == MakeTag(i + 1, WireType(s.fields[i].kind))
    {
      KnownTag(s, i, t);
    }
  }

  lemma KnownTag(s: Schema, i: nat, t: nat)
    requires S.Consecutive(s) && i < |s.fields| && !s.fields[i].kind.Repeated?
    ensures Knows(s, t) && Find(s.fields, t / 8) == i <==> t == MakeTag(i + 1, WireType(s.fields[i].kind))
  {
    S.FindConsecutive(s, t / 8);
  }

  /** A freshly parsed user_register is initialized exactly when a tag 8 record (user_type)
      and a tag 18 record (guid) occurred. */
  lemma {:induction false} UserRegisterInitialized(depth: nat, bs: bytes)
    requires Parse(S.UserRegister, depth, Empty(S.UserRegister), bs).Complete?
    ensures var s := S.UserRegister;
            var ts := TagsSeen(s, depth, Empty(s), bs);
            Initialized(s, Parse(s, depth, Empty(s), bs).msg) <==> 8 in ts && 18 in ts
  {
    hide Parse, Occurred, Initialized, TagsSeen, Conforms;
    var s := S.UserRegister;
    var m := Parse(s, depth, Empty(s), bs).msg;
    var ts := TagsSeen(s, depth, Empty(s), bs);
    EmptyConforms(s);
    PresentIffOccurred(s, depth, Empty(s), bs, 0);
    PresentIffOccurred(s, depth, Empty(s), bs, 1);
    OccurredIsTag(s, ts, 0);
    OccurredIsTag(s, ts, 1);
    UserRegisterRequired(m);
  }

  lemma UserRegisterRequired(m: Msg)
    requires |m.slots| == |S.UserRegister.fields|
    ensures Initialized(S.UserRegister, m) <==> !m.slots[0].Absent? && !m.slots[1].Absent?
  {
    var s := S.UserRegister;
    forall i | 0 <= i < 15
      ensures InitializedField(s.fields[i], m.slots[i]) <==> (i < 2 ==> !m.slots[i].Absent?)
    {
      assert (s.fields[i].required <==> i < 2) && (s.fields[i].kind.Bytes? || s.fields[i].kind.Scalar?);
    }
  }

  lemma ErrorInfoRequired(m: Msg)
    requires |m.slots| == |S.ErrorInfo.fields|
    ensures Initialized(S.ErrorInfo, m) <==> !m.slots[0].Absent?
  {
    var s := S.ErrorInfo;
    assert forall i | 0 <= i < 3 :: InitializedField(s.fields[i], m.slots[i]) <==> (i == 0 ==> !m.slots[i].Absent?);
  }

  lemma MsgP2pRecvRequired(m: Msg)
    requires |m.slots| == |S.MsgP2pRecv.fields| && (m.slots[7].Absent? || m.slots[7].Sub?)
    ensures Initialized(S.MsgP2pRecv, m)
        <==> !m.slots[0].Absent? && !m.slots[1].Absent? && !m.slots[2].Absent? && !m.slots[3].Absent?
             && !m.slots[6].Absent? && m.slots[7].Sub? && Initialized(S.MsgContent, m.slots[7].msg)
  {
    var s := S.MsgP2pRecv;
    forall i | 0 <= i < 10
      ensures InitializedField(s.fields[i], m.slots[i])
          <==> (i !in {4, 5, 8, 9} ==> !m.slots[i].Absent?) && (i == 7 && m.slots[i].Sub? ==> Initialized(S.MsgContent, m.slots[i].msg))
    {
      assert s.fields[i].kind.Message? <==> i == 7;
    }
  }

  /** Merging initialized messages gives an initialized message, at every level. */
  lemma {:induction false} MergeInitialized(s: Schema, a: Msg, b: Msg)
    requires Conforms(s, a) && Conforms(s, b) && Initialized(s, a) && Initialized(s, b)
    ensures Initialized(s, Merge(a, b))
    decreases b, 1
  {
    forall i | 0 <= i < |b.slots|
      ensures InitializedField(s.fields[i], MergeValue(a.slots[i], b.slots[i]))
    {
      MergeFieldInitialized(s.fields[i], a.slots[i], b.slots[i]);
    }
  }

  lemma {:induction false} MergeFieldInitialized(f: Field, a: Value, b: Value)
    requires ConformsValue(f.kind, a) && ConformsValue(f.kind, b)
    requires InitializedField(f, a) && InitializedField(f, b)
    ensures InitializedField(f, MergeValue(a, b))
    decreases b, 0
  {
    if a.Sub? && b.Sub? {
      MergeInitialized(f.kind.schema, a.msg, b.msg);
    }
  }
}

/**
  Declared lengths.  A nested message or a packed run whose declared length runs
  past the end of its input is cut off there and accepted.  This module says when a
  nested parse consumes what it declares, and compares the parser with one that
  refuses such lengths: the two agree exactly on inputs that are framed.
 */
module Strict {
  import opened Wire
  import opened Unknown
  import opened Message
  import opened MergeLaws
  import opened Concat
  import opened RoundTrip
  import R = Relay
  import S = Schemas

  /** An offline_msg_p2p_rsp of two bytes: an element that declares five bytes and has none is accepted. */
  lemma {:induction false} NestedOverrunAccepted(depth: nat)
    ensures depth > 0 ==>
              Parse(S.OfflineMsgP2pRsp, depth, Empty(S.OfflineMsgP2pRsp), [10, 5])
              == Complete(Put(Empty(S.OfflineMsgP2pRsp), 0, Subs([Empty(S.MsgP2pRecv)])))
  {
    var s := S.OfflineMsgP2pRsp;
    if depth > 0 {
      S.FindConsecutive(s, 1);
      assert ReadVarint32([10, 5]) == Got(10, [5]);
      assert ReadSize([5]) == Got(5, []);
      assert ReadNested(S.MsgP2pRecv, depth, Empty(S.MsgP2pRecv), [5]) == Got(Empty(S.MsgP2pRecv), []);
      assert [] + [Empty(S.MsgP2pRecv)] == [Empty(S.MsgP2pRecv)];
    }
  }

  /** A nested read consumes what it declares exactly when that much is there. */
  lemma {:induction false} NestedConsumesIff(s: Schema, depth: nat, m: Msg, bs: bytes)
    requires ReadNested(s, depth, m, bs).Got?
    ensures ReadSize(bs).Got?
    ensures |ReadSize(bs).rest| - |ReadNested(s, depth, m, bs).rest| == ReadSize(bs).value
        <==> ReadSize(bs).value <= |ReadSize(bs).rest|
  {
  }

  /** A packed run consumes what it declares exactly when that much is there. */
  lemma {:induction false} PackedConsumesIff(w: Width, depth: nat, cur: Value, bs: bytes)
    requires ReadValue(Repeated(w), depth, cur, 2, bs).Got?
    ensures ReadSize(bs).Got?
    ensures |ReadSize(bs).rest| - |ReadValue(Repeated(w), depth, cur, 2, bs).rest| == ReadSize(bs).value
        <==> ReadSize(bs).value <= |ReadSize(bs).rest|
  {
  }

  // ------------------------------------------------------ the strict parser

  /** The declared length, if there is one, is there. */
  predicate Available(bs: bytes) {
    ReadSize(bs).Got? ==> ReadSize(bs).value <= |ReadSize(bs).rest|
  }

  function StrictNested(s: Schema, depth: nat, m: Msg, bs: bytes): (r: Read<Msg>)
    ensures r.Got? ==> |r.rest| < |bs|
    decreases |bs|, 0
  {
    match ReadSize(bs)
    case Bad => Bad
    case Got(n, rest) =>
      if depth == 0 || n > |rest| then Bad
      else Finish(StrictParse(s, depth - 1, m, rest[..n]), rest[n..])
  }

  function StrictValue(k: Kind, depth: nat, cur: Value, wireType: nat, bs: bytes): (r: Read<Value>)
    ensures r.Got? ==> |r.rest| < |bs|
    decreases |bs|, 1
  {
    match k
    case Message(s) =>
      (match StrictNested(s, depth, Existing(cur, s), bs) case Bad => Bad
       case Got(m, rest) => Got(Sub(m), rest))
    case RepeatedMessage(s) =>
      (match StrictNested(s, depth, Empty(s), bs) case Bad => Bad
       case Got(m, rest) => Got(Subs(SubsOf(cur) + [m]), rest))
    case Repeated(_) => if wireType == 2 && !Available(bs) then Bad else ReadValue(k, depth, cur, wireType, bs)
    case _ => ReadValue(k, depth, cur, wireType, bs)
  }

  function StrictField(s: Schema, depth: nat, m: Msg, tag: nat, bs: bytes): (r: Read<Msg>)
    ensures r.Got? ==> |r.rest| < |bs|
    decreases |bs|, 2
  {
    var i := Find(s.fields, tag / 8);
    if Knows(s, tag) && i < |m.slots| then
      match StrictValue(s.fields[i].kind, depth, m.slots[i], tag % 8, bs)
      case Bad => Bad
      case Got(v, rest) => Got(Put(m, i, v), rest)
    else ReadField(s, depth, m, tag, bs)
  }

  /** The parse loop, refusing every nested or packed length that its input does not hold. */
  function StrictParse(s: Schema, depth: nat, m: Msg, bs: bytes): (r: Outcome)
    decreases |bs|, 3
  {
    if bs == [] then Complete(m)
    else match ReadVarint32(bs)
      case Bad => Stopped(m)
      case Got(tag, rest) =>
        if tag == 0 then Stopped(m)
        else match StrictField(s, depth, m, tag, rest)
          case Bad => Failed
          case Got(m', rest') => StrictParse(s, depth, m', rest')
  }

  // ------------------------------------------------------------ framed inputs

  /** The record's own length, and those in the nested message it holds, are there. */
  predicate FramedValue(k: Kind, depth: nat, wireType: nat, bs: bytes)
    decreases |bs|, 0
  {
    match k
    case Message(s) => FramedNested(s, depth, bs)
    case RepeatedMessage(s) => FramedNested(s, depth, bs)
    case Repeated(_) => wireType == 2 ==> Available(bs)
    case _ => true
  }

  predicate FramedNested(s: Schema, depth: nat, bs: bytes)
    decreases |bs|, -1
  {
    match ReadSize(bs)
    case Bad => true
    case Got(n, rest) => n <= |rest| && (depth > 0 ==> Framed(s, depth - 1, rest[..n]))
  }

  /** Every nested and packed record that the parser reaches, at every level, has the length it declares. */
  predicate Framed(s: Schema, depth: nat, bs: bytes)
    decreases |bs|, 1
  {
    if bs == [] || ReadVarint32(bs).Bad? || ReadVarint32(bs).value == 0 then true
    else
      var Got(tag, rest) := ReadVarint32(bs);
      && (Knows(s, tag) ==> FramedValue(s.fields[Find(s.fields, tag / 8)].kind, depth, tag % 8, rest))
      && match ReadField(s, depth, Empty(s), tag, rest)
         case Bad => true
         case Got(_, rest') => Framed(s, depth, rest')
  }

  /** Where a record ends does not depend on the message it is read into. */
  lemma SameRest(s: Schema, depth: nat, m: Msg, tag: nat, bs: bytes)
    requires Conforms(s, m)
    ensures ReadField(s, depth, m, tag, bs).Got? <==> ReadField(s, depth, Empty(s), tag, bs).Got?
    ensures ReadField(s, depth, m, tag, bs).Got? ==>
              ReadField(s, depth, m, tag, bs).rest == ReadField(s, depth, Empty(s), tag, bs).rest
  {
    hide ReadField;
    EmptyConforms(s);
    MergeRightIdentity(s, m);
    ReadFieldTranslates(s, depth, m, Empty(s), tag, bs);
  }

  lemma {:induction false} StrictNestedIs(s: Schema, depth: nat, m: Msg, bs: bytes)
    requires Conforms(s, m)
    ensures StrictNested(s, depth, m, bs) == if FramedNested(s, depth, bs) then ReadNested(s, depth, m, bs) else Bad
    decreases |bs|, 0
  {
    if ReadSize(bs).Got? && depth > 0 {
      var Got(n, rest) := ReadSize(bs);
      if n <= |rest| { StrictIs(s, depth - 1, m, rest[..n]); }
    }
  }

  lemma {:induction false} StrictValueIs(k: Kind, depth: nat, cur: Value, wireType: nat, bs: bytes)
    requires ConformsValue(k, cur)
    ensures StrictValue(k, depth, cur, wireType, bs)
         == if FramedValue(k, depth, wireType, bs) then ReadValue(k, depth, cur, wireType, bs) else Bad
    decreases |bs|, 1
  {
    match k
    case Message(s) =>
      EmptyConforms(s);
      StrictNestedIs(s, depth, Existing(cur, s), bs);
    case RepeatedMessage(s) =>
      EmptyConforms(s);
      StrictNestedIs(s, depth, Empty(s), bs);
    case _ =>
  }

  lemma {:induction false} StrictFieldIs(s: Schema, depth: nat, m: Msg, tag: nat, bs: bytes)
    requires Conforms(s, m)
    ensures StrictField(s, depth, m, tag, bs)
         == if Knows(s, tag) ==> FramedValue(s.fields[Find(s.fields, tag / 8)].kind, depth, tag % 8, bs)
            then ReadField(s, depth, m, tag, bs) else Bad
    decreases |bs|, 2
  {
    hide StrictValue, FramedValue, ReadValue;
    if Knows(s, tag) {
      var i := Find(s.fields, tag / 8);
      StrictValueIs(s.fields[i].kind, depth, m.slots[i], tag % 8, bs);
    }
  }

  /** The strict parser is the parser on framed inputs, and refuses all others. */
  lemma {:induction false} StrictIs(s: Schema, depth: nat, m: Msg, bs: bytes)
    requires Conforms(s, m)
    ensures StrictParse(s, depth, m, bs) == if Framed(s, depth, bs) then Parse(s, depth, m, bs) else Failed
    decreases |bs|, 3
  {
    if bs != [] && ReadVarint32(bs).Got? && ReadVarint32(bs).value != 0 {
      hide StrictField, FramedValue, ReadField;
      var Got(tag, rest) := ReadVarint32(bs);
      StrictFieldIs(s, depth, m, tag, rest);
      SameRest(s, depth, m, tag, rest);
      if ReadField(s, depth, m, tag, rest).Got? {
        var Got(m', rest') := ReadField(s, depth, m, tag, rest);
        ReadFieldConforms(s, depth, m, tag, rest);
        StrictIs(s, depth, m', rest');
      }
    }
  }

  /** On inputs the parser accepts, refusing overruns makes no difference exactly when there are none. */
  lemma AgreeIffFramed(s: Schema, depth: nat, m: Msg, bs: bytes)
    requires Conforms(s, m) && !Parse(s, depth, m, bs).Failed?
    ensures StrictParse(s, depth, m, bs) == Parse(s, depth, m, bs) <==> Framed(s, depth, bs)
  {
    StrictIs(s, depth, m, bs);
  }

  // ---------------------------------------------- what the serializer writes

  /** The nested message in a record that the schema knows is framed. */
  predicate FramedRecord(s: Schema, depth: nat, r: Record) {
    var tag := MakeTag(r.number, WireTypeOf(r.payload));
    Knows(s, tag) && r.payload.Delimited? && depth > 0 ==>
      match s.fields[Find(s.fields, tag / 8)].kind
      case Message(sub) => Framed(sub, depth - 1, r.payload.data)
      case RepeatedMessage(sub) => Framed(sub, depth - 1, r.payload.data)
      case _ => true
  }

  lemma WrittenLength(data: bytes, x: bytes)
    requires |data| < TWO_31
    ensures ReadSize(EncodeDelimited(data) + x) == Got(|data|, data + x) && (data + x)[..|data|] == data
  {
    assert EncodeDelimited(data) + x == EncodeVarint(|data|) + (data + x);
    VarintRoundTrip(|data|, data + x);
  }

  lemma {:induction false} RecordStep(s: Schema, depth: nat, r: Record, rest: bytes)
    requires ValidRecord(r, depth) && FramedRecord(s, depth, r) && Framed(s, depth, rest)
    ensures Framed(s, depth, EncodeRecord(r) + rest)
  {
    var tag, body := MakeTag(r.number, WireTypeOf(r.payload)), EncodePayload(r.number, r.payload) + rest;
    assert EncodeRecord(r) + rest == EncodeTag(r.number, WireTypeOf(r.payload)) + body;
    TagRoundTrip(r.number, WireTypeOf(r.payload), body);
    SkipFieldInvertsEncode(r, depth, rest);
    ReadFieldExtend(s, depth, Empty(s), tag, body, []);
    if Knows(s, tag) && r.payload.Delimited? { WrittenLength(r.payload.data, rest); }
    assert Knows(s, tag) ==> FramedValue(s.fields[Find(s.fields, tag / 8)].kind, depth, tag % 8, body);
  }

  lemma {:induction false} RecordsFramed(s: Schema, depth: nat, rs: seq<Record>)
    requires ValidRecords(rs, depth) && forall r | r in rs :: FramedRecord(s, depth, r)
    ensures Framed(s, depth, EncodeRecords(rs))
  {
    if rs != [] {
      hide Framed, FramedRecord;
      assert forall r | r in rs[1..] :: r in rs;
      RecordsFramed(s, depth, rs[1..]);
      RecordStep(s, depth, rs[0], EncodeRecords(rs[1..]));
    }
  }

  lemma {:induction false} SlotFramed(s: Schema, depth: nat, m: Msg, j: nat, r: Record)
    requires WellFormed(s) && Valid(s, depth, m) && j < |s.fields|
    requires ValidRecord(r, depth) && r in R.SlotRecords(s.fields[j], m.slots[j])
    ensures FramedRecord(s, depth, r)
    decreases m, 0
  {
    hide Framed, Serialize;
    var f, v := s.fields[j], m.slots[j];
    assert r.number == f.number && ValidValue(f.kind, depth, v);
    FindField(s, j);
    match f.kind
    case Message(sub) => WrittenIsFramed(sub, depth - 1, v.msg);
    case RepeatedMessage(sub) =>
      var i :| 0 <= i < |v.msgs| && r == Record(f.number, Delimited(Serialize(sub, v.msgs[i])));
      assert v.msgs[i] in v.msgs;
      WrittenIsFramed(sub, depth - 1, v.msgs[i]);
    case _ =>
  }

  lemma {:induction false} TailFramed(s: Schema, depth: nat, m: Msg, k: nat, r: Record)
    requires WellFormed(s) && Valid(s, depth, m) && k <= |s.fields|
    requires ValidRecord(r, depth) && r in R.RecordsFrom(s, m, k)
    ensures FramedRecord(s, depth, r)
    decreases m, 1, |s.fields| - k
  {
    if k < |s.fields| {
      if r in R.SlotRecords(s.fields[k], m.slots[k]) {
        SlotFramed(s, depth, m, k, r);
      } else {
        TailFramed(s, depth, m, k + 1, r);
      }
    }
  }

  /** Whatever the serializer writes is framed, at every level. */
  lemma {:induction false} WrittenIsFramed(s: Schema, depth: nat, m: Msg)
    requires WellFormed(s) && Valid(s, depth, m) && |Serialize(s, m)| < TWO_31
    ensures Framed(s, depth, Serialize(s, m))
    decreases m, 2
  {
    hide Framed, FramedRecord, Serialize;
    var rs := R.RecordsFrom(s, m, 0);
    R.WholeAsRecords(s, depth, m);
    forall r | r in rs ensures ValidRecord(r, depth) && FramedRecord(s, depth, r) {
      R.TailRecordsValid(s, depth, m, 0, r);
      TailFramed(s, depth, m, 0, r);
    }
    RecordsFramed(s, depth, rs);
  }

  /** So refusing overruns loses nothing that was written by a serializer. */
  lemma StrictRoundTrip(s: Schema, depth: nat, m: Msg)
    requires WellFormed(s) && Valid(s, depth, m) && |Serialize(s, m)| < TWO_31
    ensures StrictParse(s, depth, Empty(s), Serialize(s, m)) == Complete(m)
  {
    EmptyConforms(s);
    WrittenIsFramed(s, depth, m);
    SerializeParses(s, depth, m);
    StrictIs(s, depth, Empty(s), Serialize(s, m));
  }
}

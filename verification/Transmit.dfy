/** From one object tree to another over the wire: sizes, caches, writer, reader and merge together. */
module Transmit {
  import opened Wire
  import opened Message
  import opened Failing
  import opened MergeLaws
  import opened OfflineMsgP2pRspClass
  import opened Sizing
  import opened Streams
  import RT = RoundTrip
  import MsgListClass
  import S = Schemas

  /** Sizing, serializing and parsing into a new object reproduces the message, list, nested
      messages and unknown fields included. */
  method Send(src: OfflineMsgP2pRsp, depth: nat) returns (wire: bytes, dst: OfflineMsgP2pRsp)
    requires src.Valid() && Message.Valid(S.OfflineMsgP2pRsp, depth, src.Value())
    requires |Serialize(S.OfflineMsgP2pRsp, src.Value())| < TWO_31
    modifies src`cachedSize, src.msgList.repr
    ensures src.Valid() && src.Value() == old(src.Value())
    ensures wire == Serialize(S.OfflineMsgP2pRsp, src.Value())
    ensures fresh(dst) && dst.Valid() && dst.Value() == src.Value()
  {
    hide OfflineMsgP2pRsp.Valid, OfflineMsgP2pRsp.Value, OfflineMsgP2pRsp.CachesExact, OfflineMsgP2pRsp.CachesFilled;
    hide Parse, Leaves, ByteSize, Emit, Serialize, Message.Valid;
    SmallIsExact(S.OfflineMsgP2pRsp, src.Value());
    var _ := src.ByteSizeLong();
    wire := src.SerializeWithCachedSizes([]);
    assert wire == Serialize(S.OfflineMsgP2pRsp, src.Value());
    S.SchemasWellFormed();
    RT.SerializeParses(S.OfflineMsgP2pRsp, depth, src.Value());
    dst := new OfflineMsgP2pRsp();
    var input := new CodedInputStream(wire, depth);
    var _ := dst.MergePartialFromCodedStream(input);
  }

  /** Received into an object that already holds something, the message is merged into it, as if
      MergeFrom had been called with a copy of the sender's object. */
  method SendInto(src: OfflineMsgP2pRsp, depth: nat, dst: OfflineMsgP2pRsp) returns (ok: bool)
    requires src.Valid() && Message.Valid(S.OfflineMsgP2pRsp, depth, src.Value())
    requires |Serialize(S.OfflineMsgP2pRsp, src.Value())| < TWO_31
    requires dst.Valid() && dst != src && dst.msgList.Apart(src.msgList)
    requires src !in dst.msgList.repr && dst !in src.msgList.repr
    modifies src`cachedSize, src.msgList.repr, dst, dst.msgList, dst.msgList.repr
    ensures ok && dst.Valid() && dst.Value() == Merge(old(dst.Value()), old(src.Value()))
  {
    hide MsgListClass.MsgList.ValidAt, Assemble, Parse, Leaves, ByteSize, Emit, Serialize, Message.Valid, Merge;
    ghost var m, had := src.Value(), dst.Value();
    dst.ValueConforms();
    SmallIsExact(S.OfflineMsgP2pRsp, src.Value());
    var _ := src.ByteSizeLong();
    var wire := src.SerializeWithCachedSizes([]);
    assert wire == Serialize(S.OfflineMsgP2pRsp, m);
    MergedParse(depth, had, m);
    var input := new CodedInputStream(wire, depth);
    ok := dst.MergePartialFromCodedStream(input);
  }

  lemma MergedParse(depth: nat, had: Msg, m: Msg)
    requires Conforms(S.OfflineMsgP2pRsp, had) && Message.Valid(S.OfflineMsgP2pRsp, depth, m)
    requires |Serialize(S.OfflineMsgP2pRsp, m)| < TWO_31
    ensures Parse(S.OfflineMsgP2pRsp, depth, had, Serialize(S.OfflineMsgP2pRsp, m)) == Complete(Merge(had, m))
  {
    hide Parse, Serialize, Message.Valid, Merge;
    var s := S.OfflineMsgP2pRsp;
    S.SchemasWellFormed();
    RT.SerializeParses(s, depth, m);
    EmptyConforms(s);
    ParseTranslates(s, depth, had, Empty(s), Serialize(s, m));
    MergeRightIdentity(s, had);
  }
}

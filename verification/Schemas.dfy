/** The schemas of the generated classes: field numbers, kinds and required flags. */
module Schemas {
  import opened Message

  const REQ := true
  const OPT := false

  // --------------------------------------------------------- package common

  const TextContent := Schema([Field(1, Bytes, REQ), Field(2, Repeated(U32), OPT)])
  const PictureContent := Schema([Field(1, Bytes, REQ), Field(2, Bytes, REQ), Field(3, Scalar(U32), REQ), Field(4, Scalar(U32), REQ)])
  const VoiceContent := Schema([Field(1, Scalar(U32), REQ), Field(2, Bytes, REQ)])
  const BusiCardContent := Schema([Field(1, Scalar(U32), REQ), Field(2, Bytes, REQ), Field(3, Bytes, REQ)])
  const LocationContent := Schema([Field(1, Bytes, REQ), Field(2, Double, REQ), Field(3, Double, REQ), Field(4, Bytes, REQ)])
  const RedPktContent := Schema([Field(1, Scalar(U32), REQ), Field(2, Bytes, REQ)])
  const ShareContent := Schema([Field(1, Scalar(U32), REQ), Field(2, Bytes, REQ)])
  const JsonContent := Schema([Field(1, Scalar(U32), OPT), Field(2, Bytes, REQ)])
  const RiskWarning := Schema([Field(1, Bytes, REQ), Field(2, Scalar(U32), REQ)])

  const MsgContent := Schema([
    Field(1, Message(TextContent), OPT), Field(2, Message(PictureContent), OPT), Field(3, Message(VoiceContent), OPT),
    Field(4, Message(BusiCardContent), OPT), Field(5, Message(LocationContent), OPT), Field(6, Message(RedPktContent), OPT),
    Field(7, Message(ShareContent), OPT), Field(8, Message(JsonContent), OPT), Field(9, Message(RiskWarning), OPT)])

  const ErrorInfo := Schema([Field(1, Scalar(I32), REQ), Field(2, Bytes, OPT), Field(3, Bytes, OPT)])

  // ------------------------------------------------------- package chat_msg

  const MsgP2pSend := Schema([
    Field(1, Scalar(U32), REQ), Field(2, Scalar(U32), REQ), Field(3, Message(MsgContent), REQ), Field(4, Scalar(U32), OPT)])

  const MsgGroupSend := Schema([
    Field(1, Scalar(U32), REQ), Field(2, Scalar(U32), REQ), Field(3, Message(MsgContent), REQ)])

  const MsgP2pRecv := Schema([
    Field(1, Scalar(U32), REQ), Field(2, Scalar(U32), REQ), Field(3, Scalar(U64), REQ), Field(4, Scalar(U64), REQ),
    Field(5, Bytes, OPT), Field(6, Bytes, OPT), Field(7, Scalar(U32), REQ), Field(8, Message(MsgContent), REQ),
    Field(9, Scalar(U32), OPT), Field(10, Scalar(U32), OPT)])

  const OfflineMsgP2pRsp := Schema([
    Field(1, RepeatedMessage(MsgP2pRecv), OPT), Field(2, Scalar(U32), OPT), Field(3, Bytes, OPT)])

  const OfflineMsgGroupRspAck := Schema([
    Field(1, Message(ErrorInfo), REQ), Field(2, Repeated(U64), OPT), Field(3, Scalar(U32), OPT)])

  // ------------------------------------- server_internal and package im_user

  const UserRegister := Schema([
    Field(1, Scalar(U32), REQ), Field(2, Bytes, REQ), Field(3, Bytes, OPT), Field(4, Bytes, OPT), Field(5, Bytes, OPT),
    Field(6, Bytes, OPT), Field(7, Scalar(I32), OPT), Field(8, Scalar(U64), OPT), Field(9, Scalar(U64), OPT),
    Field(10, Bytes, OPT), Field(11, Bytes, OPT), Field(12, Bytes, OPT), Field(13, Bytes, OPT), Field(14, Bytes, OPT),
    Field(15, Scalar(U32), OPT)])

  const ULogin := Schema([
    Field(1, Scalar(U32), REQ), Field(2, Bytes, REQ), Field(3, Scalar(U32), OPT), Field(4, Bytes, OPT),
    Field(5, Scalar(U32), OPT), Field(6, Bytes, OPT), Field(7, Bytes, OPT), Field(8, Scalar(U32), OPT)])

  /** Fields numbered 1, 2, 3, ... without gaps, as in every schema above. */
  predicate Consecutive(s: Schema) {
    forall i | 0 <= i < |s.fields| :: s.fields[i].number == i + 1
  }

  lemma FindConsecutive(s: Schema, number: nat)
    requires Consecutive(s)
    ensures Find(s.fields, number) == if 1 <= number <= |s.fields| then number - 1 else |s.fields|
  {
    var i := Find(s.fields, number);
    if 1 <= number <= |s.fields| {
      assert s.fields[number - 1].number == number;
    }
  }

  lemma ConsecutiveWellFormed(s: Schema)
    requires Consecutive(s) && |s.fields| <= 15
    requires forall i | 0 <= i < |s.fields| :: WellFormedKind(s.fields[i].kind)
    ensures WellFormed(s)
  {
  }

  lemma ContentsWellFormed()
    ensures WellFormed(TextContent) && WellFormed(PictureContent) && WellFormed(VoiceContent)
    ensures WellFormed(BusiCardContent) && WellFormed(LocationContent) && WellFormed(RedPktContent)
    ensures WellFormed(ShareContent) && WellFormed(JsonContent) && WellFormed(RiskWarning)
  {
    hide WellFormed;
    ConsecutiveWellFormed(TextContent);
    ConsecutiveWellFormed(PictureContent);
    ConsecutiveWellFormed(VoiceContent);
    ConsecutiveWellFormed(BusiCardContent);
    ConsecutiveWellFormed(LocationContent);
    ConsecutiveWellFormed(RedPktContent);
    ConsecutiveWellFormed(ShareContent);
    ConsecutiveWellFormed(JsonContent);
    ConsecutiveWellFormed(RiskWarning);
  }

  lemma CommonWellFormed()
    ensures WellFormed(MsgContent) && WellFormed(ErrorInfo)
  {
    hide WellFormed;
    ContentsWellFormed();
    ConsecutiveWellFormed(MsgContent);
    ConsecutiveWellFormed(ErrorInfo);
  }

  /** Every theorem about well-formed schemas applies to these classes. */
  lemma {:induction false} SchemasWellFormed()
    ensures WellFormed(MsgP2pSend) && WellFormed(MsgGroupSend) && WellFormed(MsgP2pRecv)
    ensures WellFormed(OfflineMsgP2pRsp) && WellFormed(OfflineMsgGroupRspAck)
    ensures WellFormed(UserRegister) && WellFormed(ULogin)
  {
    hide WellFormed;
    CommonWellFormed();
    ConsecutiveWellFormed(MsgP2pSend);
    ConsecutiveWellFormed(MsgGroupSend);
    ConsecutiveWellFormed(MsgP2pRecv);
    ConsecutiveWellFormed(OfflineMsgP2pRsp);
    ConsecutiveWellFormed(OfflineMsgGroupRspAck);
    ConsecutiveWellFormed(UserRegister);
    ConsecutiveWellFormed(ULogin);
  }
}

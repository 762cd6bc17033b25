/**
  The field tables of the generated classes: the tags each class knows, what the
  record of each tag stores and where, what the field is written as, and which fields
  a message of the class must have.  The tables are literal; the schemas that the rest
  of the model works from are proved to agree with them.
 */
module FieldTables {
  import opened Wire
  import opened Message
  import opened WireFormat
  import opened FieldMeaning
  import S = Schemas
  import Sizing

  /** TEXT_CONTENT: msg and the list remind_user_list. */
  lemma TextContentTable()
    ensures Tags(S.TextContent, 2, {10, 16, 18})
    ensures BytesAt(S.TextContent, 10, 0) && UintsAt(S.TextContent, 16, 18, 1, 0x1_0000_0000)
  {
    hide Tags, BytesAt, UintsAt;
    var s := S.TextContent;
    TagsAre(s, {10, 16, 18});
    BytesField(s, 10, 0); UintsField(s, 16, 18, 1, U32, 0x1_0000_0000);
  }

  lemma TextContentRequired()
    ensures Requires(S.TextContent, {0}, map[])
  {
    hide Requires;
    RequiresAre(S.TextContent, {0}, map[]);
  }

  /** PICTURE_CONTENT: two strings and two uint32. */
  lemma PictureContentTable()
    ensures Tags(S.PictureContent, 4, {10, 18, 24, 32})
    ensures BytesAt(S.PictureContent, 10, 0) && BytesAt(S.PictureContent, 18, 1)
    ensures Uint32At(S.PictureContent, 24, 2) && Uint32At(S.PictureContent, 32, 3)
  {
    hide Tags, BytesAt, UintAt;
    var s := S.PictureContent;
    TagsAre(s, {10, 18, 24, 32});
    BytesField(s, 10, 0); BytesField(s, 18, 1); UintField(s, 24, 2, 0x1_0000_0000);
    UintField(s, 32, 3, 0x1_0000_0000);
  }

  lemma PictureContentRequired()
    ensures Requires(S.PictureContent, {0, 1, 2, 3}, map[])
  {
    hide Requires;
    RequiresAre(S.PictureContent, {0, 1, 2, 3}, map[]);
  }

  /** VOICE_CONTENT: voice_len and voice_url. */
  lemma VoiceContentTable()
    ensures Tags(S.VoiceContent, 2, {8, 18})
    ensures Uint32At(S.VoiceContent, 8, 0) && BytesAt(S.VoiceContent, 18, 1)
  {
    hide Tags, BytesAt, UintAt;
    var s := S.VoiceContent;
    TagsAre(s, {8, 18});
    UintField(s, 8, 0, 0x1_0000_0000); BytesField(s, 18, 1);
  }

  lemma VoiceContentRequired()
    ensures Requires(S.VoiceContent, {0, 1}, map[])
  {
    hide Requires;
    RequiresAre(S.VoiceContent, {0, 1}, map[]);
  }

  /** BUSI_CARD_CONTENT. */
  lemma BusiCardContentTable()
    ensures Tags(S.BusiCardContent, 3, {8, 18, 26})
    ensures Uint32At(S.BusiCardContent, 8, 0) && BytesAt(S.BusiCardContent, 18, 1)
    ensures BytesAt(S.BusiCardContent, 26, 2)
  {
    hide Tags, BytesAt, UintAt;
    var s := S.BusiCardContent;
    TagsAre(s, {8, 18, 26});
    UintField(s, 8, 0, 0x1_0000_0000); BytesField(s, 18, 1); BytesField(s, 26, 2);
  }

  lemma BusiCardContentRequired()
    ensures Requires(S.BusiCardContent, {0, 1, 2}, map[])
  {
    hide Requires;
    RequiresAre(S.BusiCardContent, {0, 1, 2}, map[]);
  }

  /** LOCATION_CONTENT: two doubles between two strings. */
  lemma LocationContentTable()
    ensures Tags(S.LocationContent, 4, {10, 17, 25, 34})
    ensures BytesAt(S.LocationContent, 10, 0) && DoubleAt(S.LocationContent, 17, 1)
    ensures DoubleAt(S.LocationContent, 25, 2) && BytesAt(S.LocationContent, 34, 3)
  {
    hide Tags, BytesAt, DoubleAt;
    var s := S.LocationContent;
    TagsAre(s, {10, 17, 25, 34});
    BytesField(s, 10, 0); DoubleField(s, 17, 1); DoubleField(s, 25, 2); BytesField(s, 34, 3);
  }

  lemma LocationContentRequired()
    ensures Requires(S.LocationContent, {0, 1, 2, 3}, map[])
  {
    hide Requires;
    RequiresAre(S.LocationContent, {0, 1, 2, 3}, map[]);
  }

  /** RED_PKT_CONTENT. */
  lemma RedPktContentTable()
    ensures Tags(S.RedPktContent, 2, {8, 18})
    ensures Uint32At(S.RedPktContent, 8, 0) && BytesAt(S.RedPktContent, 18, 1)
  {
    hide Tags, BytesAt, UintAt;
    var s := S.RedPktContent;
    TagsAre(s, {8, 18});
    UintField(s, 8, 0, 0x1_0000_0000); BytesField(s, 18, 1);
  }

  lemma RedPktContentRequired()
    ensures Requires(S.RedPktContent, {0, 1}, map[])
  {
    hide Requires;
    RequiresAre(S.RedPktContent, {0, 1}, map[]);
  }

  /** SHARE_CONTENT. */
  lemma ShareContentTable()
    ensures Tags(S.ShareContent, 2, {8, 18})
    ensures Uint32At(S.ShareContent, 8, 0) && BytesAt(S.ShareContent, 18, 1)
  {
    hide Tags, BytesAt, UintAt;
    var s := S.ShareContent;
    TagsAre(s, {8, 18});
    UintField(s, 8, 0, 0x1_0000_0000); BytesField(s, 18, 1);
  }

  lemma ShareContentRequired()
    ensures Requires(S.ShareContent, {0, 1}, map[])
  {
    hide Requires;
    RequiresAre(S.ShareContent, {0, 1}, map[]);
  }

  /** JSON_CONTENT: json_type may be missing, json_body may not. */
  lemma JsonContentTable()
    ensures Tags(S.JsonContent, 2, {8, 18})
    ensures Uint32At(S.JsonContent, 8, 0) && BytesAt(S.JsonContent, 18, 1)
  {
    hide Tags, BytesAt, UintAt;
    var s := S.JsonContent;
    TagsAre(s, {8, 18});
    UintField(s, 8, 0, 0x1_0000_0000); BytesField(s, 18, 1);
  }

  lemma JsonContentRequired()
    ensures Requires(S.JsonContent, {1}, map[])
  {
    hide Requires;
    RequiresAre(S.JsonContent, {1}, map[]);
  }

  /** RISK_WARNING. */
  lemma RiskWarningTable()
    ensures Tags(S.RiskWarning, 2, {10, 16})
    ensures BytesAt(S.RiskWarning, 10, 0) && Uint32At(S.RiskWarning, 16, 1)
  {
    hide Tags, BytesAt, UintAt;
    var s := S.RiskWarning;
    TagsAre(s, {10, 16});
    BytesField(s, 10, 0); UintField(s, 16, 1, 0x1_0000_0000);
  }

  lemma RiskWarningRequired()
    ensures Requires(S.RiskWarning, {0, 1}, map[])
  {
    hide Requires;
    RequiresAre(S.RiskWarning, {0, 1}, map[]);
  }

  /** msg_content: nine optional parts. */
  lemma MsgContentTags()
    ensures Tags(S.MsgContent, 9, {10, 18, 26, 34, 42, 50, 58, 66, 74})
  {
    hide Tags;
    var s := S.MsgContent;
    TagsListed(s, [10, 18, 26, 34, 42, 50, 58, 66, 74], {10, 18, 26, 34, 42, 50, 58, 66, 74});
  }

  lemma MsgContentParts()
    ensures MessageAt(S.MsgContent, 10, 0, S.TextContent) && MessageAt(S.MsgContent, 18, 1, S.PictureContent)
    ensures MessageAt(S.MsgContent, 26, 2, S.VoiceContent) && MessageAt(S.MsgContent, 34, 3, S.BusiCardContent)
    ensures MessageAt(S.MsgContent, 42, 4, S.LocationContent) && MessageAt(S.MsgContent, 50, 5, S.RedPktContent)
    ensures MessageAt(S.MsgContent, 58, 6, S.ShareContent) && MessageAt(S.MsgContent, 66, 7, S.JsonContent)
    ensures MessageAt(S.MsgContent, 74, 8, S.RiskWarning)
  {
    hide MessageAt;
    var s := S.MsgContent;
    MessageField(s, 10, 0, S.TextContent); MessageField(s, 18, 1, S.PictureContent);
    MessageField(s, 26, 2, S.VoiceContent); MessageField(s, 34, 3, S.BusiCardContent);
    MessageField(s, 42, 4, S.LocationContent); MessageField(s, 50, 5, S.RedPktContent);
    MessageField(s, 58, 6, S.ShareContent); MessageField(s, 66, 7, S.JsonContent);
    MessageField(s, 74, 8, S.RiskWarning);
  }

  lemma MsgContentRequired()
    ensures Requires(S.MsgContent, {}, map[
              0 := S.TextContent, 1 := S.PictureContent, 2 := S.VoiceContent, 3 := S.BusiCardContent,
              4 := S.LocationContent, 5 := S.RedPktContent, 6 := S.ShareContent, 7 := S.JsonContent,
              8 := S.RiskWarning])
  {
    hide Requires;
    RequiresAre(S.MsgContent, {}, map[
      0 := S.TextContent, 1 := S.PictureContent, 2 := S.VoiceContent, 3 := S.BusiCardContent,
      4 := S.LocationContent, 5 := S.RedPktContent, 6 := S.ShareContent, 7 := S.JsonContent,
      8 := S.RiskWarning]);
  }

  /** errorinfo: a signed code and two strings. */
  lemma ErrorInfoTable()
    ensures Tags(S.ErrorInfo, 3, {8, 18, 26})
    ensures Int32At(S.ErrorInfo, 8, 0) && BytesAt(S.ErrorInfo, 18, 1) && BytesAt(S.ErrorInfo, 26, 2)
  {
    hide Tags, BytesAt, Int32At;
    var s := S.ErrorInfo;
    TagsAre(s, {8, 18, 26});
    Int32Field(s, 8, 0); BytesField(s, 18, 1); BytesField(s, 26, 2);
  }

  lemma ErrorInfoRequired()
    ensures Requires(S.ErrorInfo, {0}, map[])
  {
    hide Requires;
    RequiresAre(S.ErrorInfo, {0}, map[]);
  }

  /** msg_p2p_send. */
  lemma MsgP2pSendTable()
    ensures Tags(S.MsgP2pSend, 4, {8, 16, 26, 32})
    ensures Uint32At(S.MsgP2pSend, 8, 0) && Uint32At(S.MsgP2pSend, 16, 1)
    ensures MessageAt(S.MsgP2pSend, 26, 2, S.MsgContent) && Uint32At(S.MsgP2pSend, 32, 3)
  {
    hide Tags, MessageAt, UintAt;
    var s := S.MsgP2pSend;
    TagsAre(s, {8, 16, 26, 32});
    UintField(s, 8, 0, 0x1_0000_0000); UintField(s, 16, 1, 0x1_0000_0000); MessageField(s, 26, 2, S.MsgContent);
    UintField(s, 32, 3, 0x1_0000_0000);
  }

  lemma MsgP2pSendRequired()
    ensures Requires(S.MsgP2pSend, {0, 1, 2}, map[2 := S.MsgContent])
  {
    hide Requires;
    RequiresAre(S.MsgP2pSend, {0, 1, 2}, map[2 := S.MsgContent]);
  }

  /** msg_group_send. */
  lemma MsgGroupSendTable()
    ensures Tags(S.MsgGroupSend, 3, {8, 16, 26})
    ensures Uint32At(S.MsgGroupSend, 8, 0) && Uint32At(S.MsgGroupSend, 16, 1)
    ensures MessageAt(S.MsgGroupSend, 26, 2, S.MsgContent)
  {
    hide Tags, MessageAt, UintAt;
    var s := S.MsgGroupSend;
    TagsAre(s, {8, 16, 26});
    UintField(s, 8, 0, 0x1_0000_0000); UintField(s, 16, 1, 0x1_0000_0000); MessageField(s, 26, 2, S.MsgContent);
  }

  lemma MsgGroupSendRequired()
    ensures Requires(S.MsgGroupSend, {0, 1, 2}, map[2 := S.MsgContent])
  {
    hide Requires;
    RequiresAre(S.MsgGroupSend, {0, 1, 2}, map[2 := S.MsgContent]);
  }

  /** msg_p2p_recv: msg_id and send_time are uint64. */
  lemma MsgP2pRecvTags()
    ensures Tags(S.MsgP2pRecv, 10, {8, 16, 24, 32, 42, 50, 56, 66, 72, 80})
  {
    hide Tags;
    var s := S.MsgP2pRecv;
    TagsListed(s, [8, 16, 24, 32, 42, 50, 56, 66, 72, 80], {8, 16, 24, 32, 42, 50, 56, 66, 72, 80});
  }

  lemma MsgP2pRecvNumbers()
    ensures Uint32At(S.MsgP2pRecv, 8, 0) && Uint32At(S.MsgP2pRecv, 16, 1) && Uint64At(S.MsgP2pRecv, 24, 2)
    ensures Uint64At(S.MsgP2pRecv, 32, 3) && Uint32At(S.MsgP2pRecv, 56, 6) && Uint32At(S.MsgP2pRecv, 72, 8)
    ensures Uint32At(S.MsgP2pRecv, 80, 9)
  {
    hide UintAt;
    var s := S.MsgP2pRecv;
    UintField(s, 8, 0, 0x1_0000_0000); UintField(s, 16, 1, 0x1_0000_0000);
    UintField(s, 24, 2, 0x1_0000_0000_0000_0000); UintField(s, 32, 3, 0x1_0000_0000_0000_0000);
    UintField(s, 56, 6, 0x1_0000_0000); UintField(s, 72, 8, 0x1_0000_0000); UintField(s, 80, 9, 0x1_0000_0000);
  }

  lemma MsgP2pRecvOthers()
    ensures BytesAt(S.MsgP2pRecv, 42, 4) && BytesAt(S.MsgP2pRecv, 50, 5)
    ensures MessageAt(S.MsgP2pRecv, 66, 7, S.MsgContent)
  {
    hide BytesAt, MessageAt;
    var s := S.MsgP2pRecv;
    BytesField(s, 42, 4); BytesField(s, 50, 5); MessageField(s, 66, 7, S.MsgContent);
  }

  lemma MsgP2pRecvRequired()
    ensures Requires(S.MsgP2pRecv, {0, 1, 2, 3, 6, 7}, map[7 := S.MsgContent])
  {
    hide Requires;
    RequiresAre(S.MsgP2pRecv, {0, 1, 2, 3, 6, 7}, map[7 := S.MsgContent]);
  }

  /** offline_msg_p2p_rsp: a list of msg_p2p_recv. */
  lemma OfflineMsgP2pRspTable()
    ensures Tags(S.OfflineMsgP2pRsp, 3, {10, 16, 26})
    ensures MessagesAt(S.OfflineMsgP2pRsp, 10, 0, S.MsgP2pRecv) && Uint32At(S.OfflineMsgP2pRsp, 16, 1)
    ensures BytesAt(S.OfflineMsgP2pRsp, 26, 2)
  {
    hide Tags, BytesAt, MessagesAt, UintAt;
    var s := S.OfflineMsgP2pRsp;
    TagsAre(s, {10, 16, 26});
    MessagesField(s, 10, 0, S.MsgP2pRecv); UintField(s, 16, 1, 0x1_0000_0000); BytesField(s, 26, 2);
  }

  lemma OfflineMsgP2pRspRequired()
    ensures forall m: Msg | |m.slots| == 3 ::
              Initialized(S.OfflineMsgP2pRsp, m) <==>
                (m.slots[0].Subs? ==> forall x | x in m.slots[0].msgs :: Initialized(S.MsgP2pRecv, x))
  {
  }

  /** offline_msg_group_rsp_ack: an errorinfo and a list of uint64. */
  lemma OfflineMsgGroupRspAckTable()
    ensures Tags(S.OfflineMsgGroupRspAck, 3, {10, 16, 18, 24})
    ensures MessageAt(S.OfflineMsgGroupRspAck, 10, 0, S.ErrorInfo)
    ensures UintsAt(S.OfflineMsgGroupRspAck, 16, 18, 1, 0x1_0000_0000_0000_0000)
    ensures Uint32At(S.OfflineMsgGroupRspAck, 24, 2)
  {
    hide Tags, MessageAt, UintAt, UintsAt;
    var s := S.OfflineMsgGroupRspAck;
    TagsAre(s, {10, 16, 18, 24});
    MessageField(s, 10, 0, S.ErrorInfo); UintsField(s, 16, 18, 1, U64, 0x1_0000_0000_0000_0000);
    UintField(s, 24, 2, 0x1_0000_0000);
  }

  lemma OfflineMsgGroupRspAckRequired()
    ensures Requires(S.OfflineMsgGroupRspAck, {0}, map[0 := S.ErrorInfo])
  {
    hide Requires;
    RequiresAre(S.OfflineMsgGroupRspAck, {0}, map[0 := S.ErrorInfo]);
  }

  /** user_register: gender is signed, add_identity and del_identity are uint64. */
  lemma UserRegisterTags()
    ensures Tags(S.UserRegister, 15, {8, 18, 26, 34, 42, 50, 56, 64, 72, 82, 90, 98, 106, 114, 120})
  {
    hide Tags;
    var s := S.UserRegister;
    TagsListed(s, [8, 18, 26, 34, 42, 50, 56, 64, 72, 82, 90, 98, 106, 114, 120], {8, 18, 26, 34, 42, 50, 56, 64, 72, 82, 90, 98, 106, 114, 120});
  }

  lemma UserRegisterNumbers()
    ensures Uint32At(S.UserRegister, 8, 0) && Int32At(S.UserRegister, 56, 6) && Uint64At(S.UserRegister, 64, 7)
    ensures Uint64At(S.UserRegister, 72, 8) && Uint32At(S.UserRegister, 120, 14)
  {
    hide Int32At, UintAt;
    var s := S.UserRegister;
    UintField(s, 8, 0, 0x1_0000_0000); Int32Field(s, 56, 6); UintField(s, 64, 7, 0x1_0000_0000_0000_0000);
    UintField(s, 72, 8, 0x1_0000_0000_0000_0000); UintField(s, 120, 14, 0x1_0000_0000);
  }

  lemma UserRegisterStrings()
    ensures BytesAt(S.UserRegister, 18, 1) && BytesAt(S.UserRegister, 26, 2) && BytesAt(S.UserRegister, 34, 3)
    ensures BytesAt(S.UserRegister, 42, 4) && BytesAt(S.UserRegister, 50, 5)
  {
    hide BytesAt;
    var s := S.UserRegister;
    BytesField(s, 18, 1); BytesField(s, 26, 2); BytesField(s, 34, 3); BytesField(s, 42, 4);
    BytesField(s, 50, 5);
  }

  lemma UserRegisterMoreStrings()
    ensures BytesAt(S.UserRegister, 82, 9) && BytesAt(S.UserRegister, 90, 10) && BytesAt(S.UserRegister, 98, 11)
    ensures BytesAt(S.UserRegister, 106, 12) && BytesAt(S.UserRegister, 114, 13)
  {
    hide BytesAt;
    var s := S.UserRegister;
    BytesField(s, 82, 9); BytesField(s, 90, 10); BytesField(s, 98, 11); BytesField(s, 106, 12);
    BytesField(s, 114, 13);
  }

  lemma UserRegisterRequired()
    ensures Requires(S.UserRegister, {0, 1}, map[])
  {
    hide Requires;
    RequiresAre(S.UserRegister, {0, 1}, map[]);
  }

  /** ulogin. */
  lemma ULoginTable()
    ensures Tags(S.ULogin, 8, {8, 18, 24, 34, 40, 50, 58, 64})
    ensures Uint32At(S.ULogin, 8, 0) && BytesAt(S.ULogin, 18, 1) && Uint32At(S.ULogin, 24, 2)
    ensures BytesAt(S.ULogin, 34, 3) && Uint32At(S.ULogin, 40, 4) && BytesAt(S.ULogin, 50, 5)
    ensures BytesAt(S.ULogin, 58, 6) && Uint32At(S.ULogin, 64, 7)
  {
    hide Tags, BytesAt, UintAt;
    var s := S.ULogin;
    TagsListed(s, [8, 18, 24, 34, 40, 50, 58, 64], {8, 18, 24, 34, 40, 50, 58, 64});
    UintField(s, 8, 0, 0x1_0000_0000); BytesField(s, 18, 1); UintField(s, 24, 2, 0x1_0000_0000);
    BytesField(s, 34, 3); UintField(s, 40, 4, 0x1_0000_0000); BytesField(s, 50, 5); BytesField(s, 58, 6);
    UintField(s, 64, 7, 0x1_0000_0000);
  }

  lemma ULoginRequired()
    ensures Requires(S.ULogin, {0, 1}, map[])
  {
    hide Requires;
    RequiresAre(S.ULogin, {0, 1}, map[]);
  }

  // ------------------------------------------------- the numbers, byte by byte

  /** gender: every varint of `n` modulo 2^64 behind the tag 56 sets slot 6 to `n`, negative or not. */
  lemma {:induction false} GenderRecord(n: int, depth: nat, m: Msg, p: bytes, x: bytes)
    requires -0x8000_0000 <= n < 0x8000_0000 && |m.slots| == 15
    requires VarintForm(p) && |p| <= 10 && Sum128(p) % 0x1_0000_0000_0000_0000 == n % 0x1_0000_0000_0000_0000
    ensures Parse(S.UserRegister, depth, m, [56] + (p + x)) == Parse(S.UserRegister, depth, Put(m, 6, Num(n)), x)
  {
    hide Parse, Int32At, Sum128, VarintForm, UintAt;
    UserRegisterNumbers();
    SameLowHalf(Sum128(p), n);
    Int32Record(S.UserRegister, 56, 6, n, depth, m, p, x);
  }

  /** errorinfo: the same for error_code behind the tag 8. */
  lemma {:induction false} ErrorCodeRecord(n: int, depth: nat, m: Msg, p: bytes, x: bytes)
    requires -0x8000_0000 <= n < 0x8000_0000 && |m.slots| == 3
    requires VarintForm(p) && |p| <= 10 && Sum128(p) % 0x1_0000_0000_0000_0000 == n % 0x1_0000_0000_0000_0000
    ensures Parse(S.ErrorInfo, depth, m, [8] + (p + x)) == Parse(S.ErrorInfo, depth, Put(m, 0, Num(n)), x)
  {
    hide Parse, Int32At, Sum128, VarintForm, BytesAt, Tags;
    ErrorInfoTable();
    SameLowHalf(Sum128(p), n);
    Int32Record(S.ErrorInfo, 8, 0, n, depth, m, p, x);
  }

  lemma SameLowHalf(v: nat, n: int)
    requires v % 0x1_0000_0000_0000_0000 == n % 0x1_0000_0000_0000_0000 && -0x8000_0000 <= n
    ensures v % 0x1_0000_0000 == n % 0x1_0000_0000
  {
    LowHalf(v);
    if n >= 0 {
      LowHalf(n);
    } else {
      assert n % 0x1_0000_0000_0000_0000 == 0x1_0000_0000 * 0xFFFF_FFFF + (n + 0x1_0000_0000);
      SameLow(0xFFFF_FFFF, n + 0x1_0000_0000);
    }
  }

  /** The unsigned numbers of user_register: user_type and imid keep 32 bits, the identities 64. */
  lemma {:induction false} UserRegisterRecords(depth: nat, m: Msg, p: bytes, x: bytes)
    requires |m.slots| == 15 && VarintForm(p) && |p| <= 10
    ensures var s, v := S.UserRegister, Sum128(p);
            && Parse(s, depth, m, [8] + (p + x)) == Parse(s, depth, Put(m, 0, Num(v % 0x1_0000_0000)), x)
            && Parse(s, depth, m, [64] + (p + x)) == Parse(s, depth, Put(m, 7, Num(v % 0x1_0000_0000_0000_0000)), x)
            && Parse(s, depth, m, [72] + (p + x)) == Parse(s, depth, Put(m, 8, Num(v % 0x1_0000_0000_0000_0000)), x)
            && Parse(s, depth, m, [120] + (p + x)) == Parse(s, depth, Put(m, 14, Num(v % 0x1_0000_0000)), x)
  {
    hide Parse, Int32At, Sum128, VarintForm, UintAt;
    var s := S.UserRegister;
    UserRegisterNumbers();
    UintRecord(s, 8, 0, 0x1_0000_0000, depth, m, p, x);
    UintRecord(s, 64, 7, 0x1_0000_0000_0000_0000, depth, m, p, x);
    UintRecord(s, 72, 8, 0x1_0000_0000_0000_0000, depth, m, p, x);
    UintRecord(s, 120, 14, 0x1_0000_0000, depth, m, p, x);
  }

  /** The numbers of msg_p2p_recv: msg_id and send_time keep all 64 bits. */
  lemma {:induction false} MsgP2pRecvRecords(depth: nat, m: Msg, p: bytes, x: bytes)
    requires |m.slots| == 10 && VarintForm(p) && |p| <= 10
    ensures var s, v := S.MsgP2pRecv, Sum128(p);
            && Parse(s, depth, m, [8] + (p + x)) == Parse(s, depth, Put(m, 0, Num(v % 0x1_0000_0000)), x)
            && Parse(s, depth, m, [16] + (p + x)) == Parse(s, depth, Put(m, 1, Num(v % 0x1_0000_0000)), x)
            && Parse(s, depth, m, [24] + (p + x)) == Parse(s, depth, Put(m, 2, Num(v % 0x1_0000_0000_0000_0000)), x)
            && Parse(s, depth, m, [32] + (p + x)) == Parse(s, depth, Put(m, 3, Num(v % 0x1_0000_0000_0000_0000)), x)
            && Parse(s, depth, m, [56] + (p + x)) == Parse(s, depth, Put(m, 6, Num(v % 0x1_0000_0000)), x)
            && Parse(s, depth, m, [72] + (p + x)) == Parse(s, depth, Put(m, 8, Num(v % 0x1_0000_0000)), x)
            && Parse(s, depth, m, [80] + (p + x)) == Parse(s, depth, Put(m, 9, Num(v % 0x1_0000_0000)), x)
  {
    hide Parse, Sum128, VarintForm, UintAt;
    var s := S.MsgP2pRecv;
    MsgP2pRecvNumbers();
    UintRecord(s, 8, 0, 0x1_0000_0000, depth, m, p, x);
    UintRecord(s, 16, 1, 0x1_0000_0000, depth, m, p, x);
    UintRecord(s, 24, 2, 0x1_0000_0000_0000_0000, depth, m, p, x);
    UintRecord(s, 32, 3, 0x1_0000_0000_0000_0000, depth, m, p, x);
    UintRecord(s, 56, 6, 0x1_0000_0000, depth, m, p, x);
    UintRecord(s, 72, 8, 0x1_0000_0000, depth, m, p, x);
    UintRecord(s, 80, 9, 0x1_0000_0000, depth, m, p, x);
  }

  /** offline_msg_group_rsp_ack writes its ids one record each: the tag 16 and the shortest varint
      that denotes the id. */
  lemma {:induction false} MsgIdsWritten(ns: seq<nat>)
    requires forall n | n in ns :: n < 0x1_0000_0000_0000_0000
    ensures Sizing.EmitSlot(S.OfflineMsgGroupRspAck.fields[1], Nums(ns))
         == Joined(seq(|ns|, i requires 0 <= i < |ns| => [16] + EncodeVarint(ns[i])))
    ensures forall i | 0 <= i < |ns| ::
              VarintForm(EncodeVarint(ns[i])) && Shortest(EncodeVarint(ns[i])) && Sum128(EncodeVarint(ns[i])) == ns[i]
  {
    hide Sizing.EmitSlot, EncodeVarint, VarintForm, Shortest, Sum128, Joined, Tags, UintAt, MessageAt;
    OfflineMsgGroupRspAckTable();
    forall i | 0 <= i < |ns|
      ensures VarintForm(EncodeVarint(ns[i])) && Shortest(EncodeVarint(ns[i])) && Sum128(EncodeVarint(ns[i])) == ns[i]
    {
      assert ns[i] in ns;
      EncodeDenotes(ns[i]);
    }
    RecordsJoined(S.OfflineMsgGroupRspAck, 16, 18, 1, 0x1_0000_0000_0000_0000, ns);
  }

  lemma {:induction false} RecordsJoined(s: Schema, tag: byte, packed: byte, i: nat, modulus: nat, ns: seq<nat>)
    requires UintsAt(s, tag, packed, i, modulus) && forall n | n in ns :: n < modulus
    ensures Sizing.EmitSlot(s.fields[i], Nums(ns))
         == Joined(seq(|ns|, j requires 0 <= j < |ns| => [tag] + EncodeVarint(ns[j])))
    decreases |ns|
  {
    hide Sizing.EmitSlot, EncodeVarint, Joined;
    var parts := seq(|ns|, j requires 0 <= j < |ns| => [tag] + EncodeVarint(ns[j]));
    if ns == [] {
      assert Joined(parts) == [] by { NoneJoined(parts); }
    } else {
      assert ns == [ns[0]] + ns[1..];
      assert ns[0] in ns && forall n | n in ns[1..] :: n in ns;
      var later := seq(|ns| - 1, j requires 0 <= j < |ns| - 1 => [tag] + EncodeVarint(ns[1..][j]));
      RecordsJoined(s, tag, packed, i, modulus, ns[1..]);
      assert parts == [[tag] + EncodeVarint(ns[0])] + later;
      JoinedCons([tag] + EncodeVarint(ns[0]), later);
    }
  }

  lemma NoneJoined(parts: seq<bytes>)
    requires parts == []
    ensures Joined(parts) == []
  {
  }

  lemma {:induction false} JoinedCons(first: bytes, parts: seq<bytes>)
    ensures Joined([first] + parts) == first + Joined(parts)
    decreases |parts|
  {
    var all := [first] + parts;
    if parts == [] {
      assert all[..0] == [];
    } else {
      var k := |parts| - 1;
      assert all[..k + 1] == [first] + parts[..k] && all[k + 1] == parts[k];
      JoinedCons(first, parts[..k]);
      Join(first, Joined(parts[..k]), parts[k]);
    }
  }

  /** The id 3000000000, above the range of an int, as the bytes of its record. */
  lemma LargeMsgId()
    ensures Sizing.EmitSlot(S.OfflineMsgGroupRspAck.fields[1], Nums([3000000000])) == [0x10, 0x80, 0xBC, 0xC1, 0x96, 0x0B]
  {
    hide Tags, UintAt, MessageAt, Sizing.EmitSlot;
    OfflineMsgGroupRspAckTable();
    assert [3000000000] == [3000000000] + [];
    assert EncodeVarint(3000000000) == [0x80, 0xBC, 0xC1, 0x96, 0x0B] by {
      assert EncodeVarint(11) == [0x0B] && EncodeVarint(1430) == [0x96, 0x0B];
      assert EncodeVarint(183105) == [0xC1, 0x96, 0x0B] && EncodeVarint(23437500) == [0xBC, 0xC1, 0x96, 0x0B];
    }
  }
}

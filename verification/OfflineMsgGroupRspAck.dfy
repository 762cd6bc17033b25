/** offline_msg_group_rsp_ack: a nested errorinfo, a list of message ids and a group id. */
module OfflineMsgGroupRspAckClass {
  import opened Wire
  import opened Unknown
  import opened Message
  import opened HasBits
  import opened Failing
  import opened Members
  import opened MergeLaws
  import opened NumberFields
  import opened Sizing
  import opened Streams
  import opened Writing
  import opened ArrayWriter
  import E = ErrorInfoClass
  import S = Schemas

  const ERROR: nat := 0
  const GROUP_ID: nat := 1

  /** The message that the members stand for. */
  ghost function Assemble(has: word, sub: Pointee, ids: seq<int>, group: int, unknown: seq<Record>): (m: Msg) {
    Msg([if ERROR in has && sub.To? then Sub(sub.msg) else Absent,
         Nums(ids),
         if GROUP_ID in has then Num(group) else Absent], unknown)
  }

  lemma AssembleConforms(has: word, sub: Pointee, ids: seq<int>, group: int, unknown: seq<Record>)
    requires sub.To? ==> Conforms(S.ErrorInfo, sub.msg)
    ensures Conforms(S.OfflineMsgGroupRspAck, Assemble(has, sub, ids, group, unknown))
  {
  }

  lemma AssembleEmpty(sub: Pointee)
    ensures Assemble({}, sub, [], 0, []) == Empty(S.OfflineMsgGroupRspAck)
  {
    assert Assemble({}, sub, [], 0, []).slots == Empty(S.OfflineMsgGroupRspAck).slots;
  }

  lemma AssembleMerge(h: word, p: Pointee, ids: seq<int>, g: int, u: seq<Record>,
                      h': word, p': Pointee, ids': seq<int>, g': int, u': seq<Record>)
    requires (ERROR in h ==> p.To?) && (ERROR in h' ==> p'.To? && Conforms(S.ErrorInfo, p'.msg))
    requires ERROR !in h ==> Content(p, S.ErrorInfo) == Empty(S.ErrorInfo)
    ensures Assemble(h + h', MergedSub(S.ErrorInfo, p, ERROR in h', p'), ids + ids',
                     if GROUP_ID in h' then g' else g, u + u')
         == Merge(Assemble(h, p, ids, g, u), Assemble(h', p', ids', g', u'))
  {
    var x, y := Assemble(h, p, ids, g, u), Assemble(h', p', ids', g', u');
    var z := Assemble(h + h', MergedSub(S.ErrorInfo, p, ERROR in h', p'), ids + ids',
                      if GROUP_ID in h' then g' else g, u + u');
    if ERROR in h' && ERROR !in h { MergeLeftIdentity(S.ErrorInfo, p'.msg); }
    assert z.slots == Merge(x, y).slots;
  }

  /** The bytes of the nested field. */
  ghost function ErrorBytes(has: word, sub: Pointee): bytes {
    if ERROR in has && sub.To? then EncodeTag(1, 2) + EmitDelimited(Emit(S.ErrorInfo, sub.msg)) else []
  }

  ghost function GroupBytes(has: word, group: int): bytes {
    if GROUP_ID in has then EncodeTag(3, 0) + EncodeVarint(ToWire(group)) else []
  }

  /** What is emitted, part by part. */
  lemma AssembleBytes(has: word, sub: Pointee, ids: seq<int>, group: int, unknown: seq<Record>)
    ensures Emit(S.OfflineMsgGroupRspAck, Assemble(has, sub, ids, group, unknown))
         == ErrorBytes(has, sub) + EncodeNums(2, ids) + GroupBytes(has, group) + EncodeRecords(unknown)
  {
    hide Emit, EncodeNums, EncodeRecords, EncodeTag, EmitDelimited, EncodeVarint;
    var s, m := S.OfflineMsgGroupRspAck, Assemble(has, sub, ids, group, unknown);
    EmitFirst(s, m);
    EmitEnd(s, m);
    assert EmitFrom(s, m, 2) == EmitSlot(s.fields[2], m.slots[2]) + EncodeRecords(unknown);
    assert EmitFrom(s, m, 1) == EmitSlot(s.fields[1], m.slots[1]) + EmitFrom(s, m, 2);
  }

  ghost function ErrorSize(has: word, sub: Pointee): nat {
    if ERROR in has && sub.To? then 1 + DelimitedSize(ByteSize(S.ErrorInfo, sub.msg)) else 0
  }

  ghost function GroupSize(has: word, group: int): nat {
    if GROUP_ID in has then 1 + NumberSize(U32, group) else 0
  }

  /** The size, part by part. */
  lemma AssembleSize(has: word, sub: Pointee, ids: seq<int>, group: int, unknown: seq<Record>)
    requires InRange(U32, group)
    ensures ByteSize(S.OfflineMsgGroupRspAck, Assemble(has, sub, ids, group, unknown))
         == ErrorSize(has, sub) + |EncodeNums(2, ids)| + GroupSize(has, group) + |EncodeRecords(unknown)|
  {
    hide EncodeNums, EncodeRecords, EncodeTag, EncodeVarint, DelimitedSize, NumberSize;
    var s, m := S.OfflineMsgGroupRspAck, Assemble(has, sub, ids, group, unknown);
    SizeStep(s, m, 0);
    SizeStep(s, m, 1);
    SizeStep(s, m, 2);
    SizeEnd(s, m);
    ShortTag(1, 2);
    ShortTag(3, 0);
    NumberSizeIsExact(U32, group);
    assert SlotSize(s.fields[0], m.slots[0]) == ErrorSize(has, sub);
    assert SlotSize(s.fields[1], m.slots[1]) == |EncodeNums(2, ids)|;
    assert SlotSize(s.fields[2], m.slots[2]) == GroupSize(has, group);
  }

  /** The tags of the four cases of the switch; the list has an unpacked and a packed one. */
  lemma KnownTags(tag: nat)
    ensures Knows(S.OfflineMsgGroupRspAck, tag) <==>
              || (tag / 8 == 1 && tag % 256 == 10) || (tag / 8 == 2 && tag % 256 == 16)
              || (tag / 8 == 2 && tag % 256 == 18) || (tag / 8 == 3 && tag % 256 == 24)
    ensures 1 <= tag / 8 <= 3 ==> Find(S.OfflineMsgGroupRspAck.fields, tag / 8) == tag / 8 - 1 && tag < 32
  {
    S.FindConsecutive(S.OfflineMsgGroupRspAck, tag / 8);
  }

  /** The second field is the list. */
  lemma IdList()
    ensures ListOf(S.OfflineMsgGroupRspAck, U64)
  {
    S.FindConsecutive(S.OfflineMsgGroupRspAck, 2);
  }

  lemma ErrorRequired(m: Msg)
    requires |m.slots| == 3 && (m.slots[0].Absent? || m.slots[0].Sub?)
    ensures Initialized(S.OfflineMsgGroupRspAck, m)
        <==> m.slots[0].Sub? && Initialized(S.ErrorInfo, m.slots[0].msg)
  {
    var s := S.OfflineMsgGroupRspAck;
    assert InitializedField(s.fields[0], m.slots[0]) <==> m.slots[0].Sub? && Initialized(S.ErrorInfo, m.slots[0].msg);
    assert InitializedField(s.fields[1], m.slots[1]) && InitializedField(s.fields[2], m.slots[2]);
  }

  class OfflineMsgGroupRspAck {
    var hasBits: word
    var error: E.ErrorInfo?
    const msgId: NumberField
    var groupId: int
    var unknown: seq<Record>
    var cachedSize: int
    ghost var content: Pointee
    ghost var below: set<E.ErrorInfo>

    /** The recorded content and footprint are those of the nested object. */
    ghost predicate Linked()
      reads this`error, this`content, this`below, below`hasBits, below`strs, below`nums, below`unknown
    {
      if error == null then content == Null && below == {}
      else below == {error} && error.Valid() && content == To(error.Value())
    }

    ghost predicate Valid()
      reads this, msgId`elements, msgId`capacity, below`hasBits, below`strs, below`nums, below`unknown
    {
      && hasBits <= {ERROR, GROUP_ID} && InRange(U32, groupId) && (GROUP_ID !in hasBits ==> groupId == 0)
      && msgId.w == U64 && msgId.Valid()
      && PointerOk(S.ErrorInfo, ERROR in hasBits, content) && Linked()
    }

    ghost function Value(): (m: Msg)
      reads this`hasBits, this`content, msgId`elements, this`groupId, this`unknown
    {
      Assemble(hasBits, content, msgId.elements, groupId, unknown)
    }

    constructor ()
      ensures Valid() && Value() == Empty(S.OfflineMsgGroupRspAck) && error == null && fresh(msgId)
    {
      hasBits, error, groupId, unknown, cachedSize := {}, null, 0, [], 0;
      msgId := new NumberField(U64);
      content, below := Null, {};
      new;
      AssembleEmpty(Null);
    }

    /** Records the nested message after it was changed through its own object. */
    ghost method Relink()
      requires error != null && error.Valid()
      modifies this`content, this`below
      ensures Linked() && content == To(error.Value()) && Conforms(S.ErrorInfo, content.msg)
    {
      hide E.ErrorInfo.Valid, E.ErrorInfo.Value, Conforms;
      error.ValueOk();
      content, below := To(error.Value()), {error};
    }

    method MutableError() returns (p: E.ErrorInfo)
      requires Valid()
      modifies this`hasBits, this`error, this`content, this`below
      ensures Valid() && p == error && p.Valid() && hasBits == old(hasBits) + {ERROR}
      ensures if old(error) == null then fresh(p) else p == old(error)
      ensures content == To(p.Value()) && p.Value() == Content(old(content), S.ErrorInfo)
      ensures p.Value() == Existing(old(Value()).slots[0], S.ErrorInfo)
    {
      hide E.ErrorInfo.Valid, E.ErrorInfo.Value, IsFresh, Conforms;
      hasBits := hasBits + {ERROR};
      if error == null {
        error := new E.ErrorInfo();
        Relink();
      }
      return error;
    }

    method Clear()
      requires Valid()
      modifies this`hasBits, msgId`elements, this`groupId, this`unknown, this`content, this`below
      modifies below`hasBits, below`strs, below`nums, below`unknown
      ensures Valid() && Value() == Empty(S.OfflineMsgGroupRspAck)
    {
      hide E.ErrorInfo.Valid, E.ErrorInfo.Value, IsFresh, Conforms;
      msgId.Clear();
      if ERROR in hasBits {
        error.Clear();
        Relink();
      }
      groupId := 0;
      hasBits := {};
      unknown := [];
      AssembleEmpty(content);
    }

    /** mutable_error()->MergeFrom(from.error()) */
    method MergeError(from: OfflineMsgGroupRspAck)
      requires Valid() && from.Valid() && from != this && from.error != null && from.error != error
      modifies this`hasBits, this`error, this`content, this`below, below`hasBits, below`strs, below`nums, below`unknown
      ensures Valid() && hasBits == old(hasBits) + {ERROR}
      ensures content == MergedSub(S.ErrorInfo, old(content), true, from.content)
      ensures if old(error) == null then fresh(error) else error == old(error)
    {
      hide E.ErrorInfo.Valid, E.ErrorInfo.Value, Merge, Conforms;
      var e := MutableError();
      e.MergeFrom(from.error);
      Relink();
    }

    /** The group guarded by 3. */
    method MergeGroup(from: OfflineMsgGroupRspAck)
      requires Valid() && from.Valid() && from != this && (from.error == null || from.error != error)
      modifies this`hasBits, this`error, this`content, this`below, this`groupId
      modifies below`hasBits, below`strs, below`nums, below`unknown
      ensures Valid() && hasBits == old(hasBits) + from.hasBits
      ensures content == MergedSub(S.ErrorInfo, old(content), ERROR in from.hasBits, from.content)
      ensures groupId == (if GROUP_ID in from.hasBits then from.groupId else old(groupId))
      ensures fresh(below - old(below))
    {
      hide Ones, Shl, Test, Merge, E.ErrorInfo.Valid, E.ErrorInfo.Value, Conforms;
      MaskValues();
      if Test(from.hasBits, 3) {
        if ERROR in from.hasBits {
          MergeError(from);
        }
        if GROUP_ID in from.hasBits {
          groupId := from.groupId;
        }
        hasBits := hasBits + from.hasBits;
      } else {
        GuardOff(from.hasBits, 3, 2, 0);
        assert from.hasBits == {};
      }
    }

    /** What the invariant says of the nested pointer. */
    lemma Reach()
      requires Valid()
      ensures ERROR in hasBits ==> content.To?
      ensures content.To? ==> Conforms(S.ErrorInfo, content.msg)
      ensures ERROR !in hasBits ==> Content(content, S.ErrorInfo) == Empty(S.ErrorInfo)
    {
    }

    /** MergeFrom: ids are appended, and the nested error is merged into. */
    method MergeFrom(from: OfflineMsgGroupRspAck)
      requires Valid() && from.Valid() && from != this && from.msgId != msgId
      requires from.error == null || from.error != error
      modifies this, msgId`elements, msgId`capacity, below`hasBits, below`strs, below`nums, below`unknown
      ensures Valid() && Value() == Merge(old(Value()), from.Value())
      ensures fresh(below - old(below))
    {
      hide Assemble, Merge, MergedSub, Linked, PointerOk, Conforms;
      ghost var h, p, ids, g, u := hasBits, content, msgId.elements, groupId, unknown;
      Reach();
      from.Reach();
      unknown := unknown + from.unknown;
      msgId.MergeFrom(from.msgId);
      MergeGroup(from);
      AssembleMerge(h, p, ids, g, u, from.hasBits, from.content, from.msgId.elements, from.groupId, from.unknown);
    }

    method CopyFrom(from: OfflineMsgGroupRspAck)
      requires Valid() && from.Valid()
      requires from != this ==> from.msgId != msgId && (from.error == null || from.error != error)
      modifies this, msgId`elements, msgId`capacity, below`hasBits, below`strs, below`nums, below`unknown
      ensures Valid() && Value() == old(from.Value())
    {
      hide E.ErrorInfo.Valid, E.ErrorInfo.Value, Assemble, Merge;
      if from == this {
        return;
      }
      Clear();
      MergeFrom(from);
      AssembleConforms(from.hasBits, from.content, from.msgId.elements, from.groupId, from.unknown);
      MergeLeftIdentity(S.OfflineMsgGroupRspAck, from.Value());
    }

    method IsInitialized() returns (r: bool)
      requires Valid()
      ensures r <==> Initialized(S.OfflineMsgGroupRspAck, Value())
    {
      hide Initialized, E.ErrorInfo.Valid, E.ErrorInfo.Value;
      ErrorRequired(Value());
      if ERROR !in hasBits {
        return false;
      }
      r := error.IsInitialized();
    }

    // ------------------------------------------------------------- parsing

    method ReadError(input: CodedInputStream) returns (ok: bool)
      requires Valid() && input.Valid() && 0 <= input.budget
      modifies this`hasBits, this`error, this`content, this`below, below`hasBits, below`strs, below`nums, below`unknown
      modifies input`pos, input`limit, input`budget, input`legitimateEnd
      ensures Valid() && input.Valid()
      ensures fresh(below - old(below))
      ensures ok ==> input.limit == old(input.limit) && input.budget == old(input.budget)
      ensures ReadValue(Message(S.ErrorInfo), old(input.budget), old(Value()).slots[0], 2, old(input.Rest()))
              == if ok then Got(Value().slots[0], input.Rest()) else Bad
      ensures Value() == Put(old(Value()), 0, Value().slots[0])
      ensures LeavesValue(Message(S.ErrorInfo), old(input.budget), old(Value()).slots[0], 2, old(input.Rest()),
                          Value().slots[0])
    {
      hide E.ErrorInfo.Valid, E.ErrorInfo.Value, ReadNested, LeavesNested, Conforms;
      var p := MutableError();
      ok := E.ReadErrorInfo(input, p);
      Relink();
    }

    method ReadGroupId(input: CodedInputStream) returns (ok: bool)
      requires Valid() && input.Valid() && 0 <= input.budget
      modifies this`hasBits, this`groupId, input`pos
      ensures Valid() && input.Valid()
      ensures ReadValue(Scalar(U32), input.budget, old(Value()).slots[2], 0, old(input.Rest()))
              == if ok then Got(Value().slots[2], input.Rest()) else Bad
      ensures Value() == Put(old(Value()), 2, Value().slots[2])
      ensures Value().slots[2].Num? && InRange(U32, Value().slots[2].n)
    {
      hide ReadValue, E.ErrorInfo.Valid, E.ErrorInfo.Value, Conforms;
      hasBits := hasBits + {GROUP_ID};
      var v;
      ok, v := input.ReadPrimitive(U32, input.budget, old(Value()).slots[2]);
      groupId := v;
    }

    /** The members with another list. */
    lemma OtherList(m: Msg, ids: seq<int>)
      requires m == Assemble(hasBits, content, ids, groupId, unknown)
      ensures Value() == WithList(m, msgId.elements)
    {
    }

    /** The unpacked case. */
    method ReadIds(input: CodedInputStream) returns (ok: bool)
      requires Valid() && input.Valid() && 0 <= input.budget
      modifies msgId`elements, msgId`capacity, input`pos
      ensures Valid() && input.Valid() && (ok ==> |input.Rest()| < |old(input.Rest())|)
      ensures match ReadField(S.OfflineMsgGroupRspAck, input.budget, old(Value()), UNPACKED_TAG, old(input.Rest()))
              case Bad =>
                && !ok
                && LeavesField(S.OfflineMsgGroupRspAck, input.budget, old(Value()), UNPACKED_TAG, old(input.Rest()),
                               Value())
              case Got(m, rest) =>
                Continues(S.OfflineMsgGroupRspAck, input.budget, m, rest, ok, Value(), input.Rest())
    {
      hide ReadField, LeavesField, Continues, ListOf, Linked, PointerOk;
      ghost var m := Value();
      IdList();
      UnpackedCase(S.OfflineMsgGroupRspAck, U64, input.budget, m, msgId.elements, input.Rest());
      ok := msgId.ReadRepeatedPrimitive(input, S.OfflineMsgGroupRspAck, m);
      OtherList(m, old(msgId.elements));
    }

    /** The packed case. */
    method ReadPackedIds(input: CodedInputStream) returns (ok: bool)
      requires Valid() && input.Valid() && 0 <= input.budget
      modifies msgId`elements, msgId`capacity, input`pos, input`limit, input`legitimateEnd
      ensures Valid() && input.Valid() && (ok ==> input.limit == old(input.limit))
      ensures ReadField(S.OfflineMsgGroupRspAck, input.budget, old(Value()), PACKED_TAG, old(input.Rest()))
              == if ok then Got(Value(), input.Rest()) else Bad
      ensures !ok ==> LeavesField(S.OfflineMsgGroupRspAck, input.budget, old(Value()), PACKED_TAG,
                                  old(input.Rest()), Value())
    {
      hide ReadField, LeavesField, ListOf, Linked, PointerOk;
      ghost var m := Value();
      IdList();
      ok := msgId.ReadPackedPrimitive(input, S.OfflineMsgGroupRspAck, m);
      OtherList(m, old(msgId.elements));
    }

    lemma ThreeSlots()
      ensures |Value().slots| == 3
    {
    }

    /** The default case: the record goes to the unknown fields. */
    method SkipUnknown(input: CodedInputStream, tag: nat) returns (ok: bool)
      requires Valid() && input.Valid() && 0 <= input.budget && !Knows(S.OfflineMsgGroupRspAck,
                                                                       tag) && 1 <= tag < TWO_32
      modifies this`unknown, input`pos
      ensures Valid() && input.Valid() && (!ok ==> Value() == old(Value()))
      ensures ReadField(S.OfflineMsgGroupRspAck, input.budget, old(Value()), tag, old(input.Rest()))
              == if ok then Got(Value(), input.Rest()) else Bad
    {
      hide Knows, SkipField, Find, Linked, PointerOk;
      var p;
      ok, p := input.SkipUnknown(tag);
      if ok {
        unknown := unknown + [Record(tag / 8, p)];
      }
    }

    /** The switch.  What a turn leaves is judged by how the rest of the input parses, because the
        unpacked case may take several records at once. */
    method ReadFields(input: CodedInputStream, tag: nat) returns (ok: bool)
      requires Valid() && input.Valid() && 0 <= input.budget && 1 <= tag < TWO_32
      modifies this, msgId`elements, msgId`capacity, below`hasBits, below`strs, below`nums, below`unknown
      modifies input`pos, input`limit, input`budget, input`legitimateEnd
      ensures Valid() && input.Valid()
      ensures fresh(below - old(below))
      ensures ok ==> input.limit == old(input.limit) && input.budget == old(input.budget)
      ensures ok ==> |input.Rest()| < |old(input.Rest())|
      ensures match ReadField(S.OfflineMsgGroupRspAck, old(input.budget), old(Value()), tag, old(input.Rest()))
              case Bad => !ok && LeavesField(S.OfflineMsgGroupRspAck, old(input.budget), old(Value()), tag,
                                             old(input.Rest()), Value())
              case Got(m, rest) => Continues(S.OfflineMsgGroupRspAck, old(input.budget), m, rest, ok, Value(),
                                             input.Rest())
    {
      hide Knows, ReadValue, LeavesNested, SkipField, Find, Continues, Valid, Value;
      ThreeSlots();
      KnownTags(tag);
      if tag / 8 == 2 && tag % 256 == 16 {
        ok := ReadIds(input);
        return;
      }
      if tag / 8 == 1 && tag % 256 == 10 {
        ok := ReadError(input);
      } else if tag / 8 == 2 && tag % 256 == 18 {
        ok := ReadPackedIds(input);
      } else if tag / 8 == 3 && tag % 256 == 24 {
        ok := ReadGroupId(input);
      } else {
        ok := SkipUnknown(input, tag);
      }
      if ok { Stays(S.OfflineMsgGroupRspAck, input.budget, Value(), input.Rest()); }
    }

    /** MergePartialFromCodedStream: greedy reading and packed runs included, the plain parse. */
    method MergePartialFromCodedStream(input: CodedInputStream) returns (ok: bool)
      requires Valid() && input.Valid() && 0 <= input.budget
      modifies this, msgId`elements, msgId`capacity, below`hasBits, below`strs, below`nums, below`unknown
      modifies input`pos, input`limit, input`budget, input`legitimateEnd
      ensures Valid() && input.Valid()
      ensures match Parse(S.OfflineMsgGroupRspAck, old(input.budget), old(Value()), old(input.Rest()))
              case Complete(m) => ok && Value() == m && input.Rest() == [] && input.legitimateEnd
              case Stopped(m) => ok && Value() == m && !input.legitimateEnd
              case Failed => !ok
      ensures Leaves(S.OfflineMsgGroupRspAck, old(input.budget), old(Value()), old(input.Rest()), Value())
    {
      hide Valid, Value, Follows, Parse, Leaves, LeavesField, ReadField;
      ghost var m0, bs0 := Value(), input.Rest();
      FollowsStart(S.OfflineMsgGroupRspAck, input.budget, m0, bs0);
      while true
        invariant Valid() && input.Valid()
        invariant fresh(below - old(below))
        invariant input.limit == old(input.limit) && input.budget == old(input.budget)
        invariant Follows(S.OfflineMsgGroupRspAck, input.budget, m0, bs0, Value(), input.Rest())
        decreases |input.Rest()|
      {
        Turn(S.OfflineMsgGroupRspAck, input.budget, m0, bs0, Value(), input.Rest());
        var tag := input.ReadTag();
        if tag == 0 {
          return true;
        }
        ghost var turn := ReadField(S.OfflineMsgGroupRspAck, input.budget, Value(), tag, input.Rest());
        ok := ReadFields(input, tag);
        if turn.Got? { Onward(S.OfflineMsgGroupRspAck, old(input.budget), m0, bs0, turn.value, turn.rest, ok, Value(), input.Rest()); }
        if !ok {
          return false;
        }
      }
    }

    // ------------------------------------------------- size and serializing

    /** The nested cached size is what ByteSizeLong leaves. */
    ghost predicate CachesFilled()
      requires Valid()
      reads this, msgId`elements, msgId`capacity, below
    {
      ERROR in hasBits ==> error.CacheFilled()
    }

    /** The nested cached size is the encoded length. */
    ghost predicate CachesExact()
      requires Valid()
      reads this, msgId`elements, msgId`capacity, below
    {
      ERROR in hasBits ==> error.CacheExact()
    }

    /** if (has_error()) total_size += 1 + MessageSize(*error_) */
    method AddError() returns (n: nat)
      requires Valid()
      modifies below`cachedSize
      ensures Valid() && n == ErrorSize(hasBits, content) && CachesFilled()
      ensures n < TWO_31 ==> CachesExact()
    {
      hide E.ErrorInfo.Valid, E.ErrorInfo.Value, Serialize, Emit, ByteSize, Conforms;
      n := 0;
      if ERROR in hasBits {
        var size := error.ByteSizeLong();
        n := 1 + DelimitedSize(size);
      }
    }

    /** ByteSizeLong: the number of bytes that will be emitted, whatever the content. */
    method ByteSizeLong() returns (n: nat)
      requires Valid()
      modifies this`cachedSize, below`cachedSize
      ensures Valid() && n == ByteSize(S.OfflineMsgGroupRspAck, Value()) == |Emit(S.OfflineMsgGroupRspAck, Value())|
      ensures cachedSize == ToCachedSize(n) && CachesFilled()
      ensures n < TWO_31 ==> n == |Serialize(S.OfflineMsgGroupRspAck, Value())| && CachesExact()
    {
      hide Assemble, Serialize, Emit, ByteSize, ErrorSize, EncodeNums, EncodeRecords, E.ErrorInfo.Valid;
      hide E.ErrorInfo.Value, Conforms, NumberSize;
      AssembleSize(hasBits, content, msgId.elements, groupId, unknown);
      EmitLength(S.OfflineMsgGroupRspAck, Value());
      NoneWritten(2, S.ErrorInfo);
      n := 0;
      if unknown != [] {
        n := n + |EncodeRecords(unknown)|;
      }
      var nested := AddError();
      var data := msgId.DataSize();
      n := n + nested + 1 * |msgId.elements| + data;
      if GROUP_ID in hasBits {
        n := n + 1 + NumberSize(U32, groupId);
      }
      cachedSize := ToCachedSize(n);
      if n < TWO_31 { SmallIsExact(S.OfflineMsgGroupRspAck, Value()); }
    }

    /** The stream serializer loops over the list. */
    method SerializeWithCachedSizes(out: bytes) returns (r: bytes)
      requires Valid() && CachesFilled()
      ensures r == out + Emit(S.OfflineMsgGroupRspAck, Value())
    {
      hide Assemble, Emit, EncodeNums, EncodeRecords, EmitDelimited, EncodeTag, EncodeVarint;
      hide E.ErrorInfo.Valid, E.ErrorInfo.Value, Conforms;
      AssembleBytes(hasBits, content, msgId.elements, groupId, unknown);
      NoneWritten(2, S.ErrorInfo);
      r := out;
      if ERROR in hasBits {
        r := E.WriteErrorInfo(1, error, r);
      }
      r := msgId.Write(r);
      if GROUP_ID in hasBits {
        r := r + (EncodeTag(3, 0) + EncodeVarint(ToWire(groupId)));
      }
      if unknown != [] {
        r := r + EncodeRecords(unknown);
      }
    }

    method WriteErrorToArray(target: array<byte>, at: nat) returns (end: nat)
      requires Valid() && CachesFilled() && at + |ErrorBytes(hasBits, content)| <= target.Length
      modifies target
      ensures Wrote(target, at, end, ErrorBytes(hasBits, content))
    {
      hide Emit, EncodeTag, EmitDelimited, E.ErrorInfo.Valid, E.ErrorInfo.Value, Conforms, Spliced;
      SpliceNone(target[..], at);
      end := at;
      if ERROR in hasBits {
        end := E.WriteErrorInfoToArray(1, error, target, at);
      }
    }

    /** The nested message and the list, which is handed over whole. */
    method WriteFrontToArray(target: array<byte>, at: nat) returns (end: nat)
      requires Valid() && CachesFilled() && at + |ErrorBytes(hasBits, content) + EncodeNums(2,
              msgId.elements)| <= target.Length
      modifies target
      ensures Wrote(target, at, end, ErrorBytes(hasBits, content) + EncodeNums(2, msgId.elements))
    {
      hide EncodeNums, ErrorBytes, Spliced;
      ghost var t0 := target[..];
      var a := WriteErrorToArray(target, at);
      ghost var t1 := target[..];
      end := WriteNumbersToArray(2, msgId.elements, target, a);
      SpliceJoin(t0, t1, target[..], at, a, end, ErrorBytes(hasBits, content), EncodeNums(2, msgId.elements));
    }

    method WriteBackToArray(target: array<byte>, at: nat) returns (end: nat)
      requires Valid() && at + |GroupBytes(hasBits, groupId) + EncodeRecords(unknown)| <= target.Length
      modifies target
      ensures Wrote(target, at, end, GroupBytes(hasBits, groupId) + EncodeRecords(unknown))
    {
      hide EncodeTag, EncodeVarint, EncodeRecords, Spliced;
      NoneWritten(2, S.ErrorInfo);
      ghost var t0, group := target[..], GroupBytes(hasBits, groupId);
      SpliceNone(t0, at);
      end := at;
      if GROUP_ID in hasBits {
        end := WriteNumberToArray(3, groupId, target, at);
      }
      assert group + [] == group;
      if unknown != [] {
        ghost var t1, a := target[..], end;
        end := WriteRawToArray(EncodeRecords(unknown), target, end);
        SpliceJoin(t0, t1, target[..], at, a, end, group, EncodeRecords(unknown));
      }
    }

    /** The array serializer hands the whole list over, writes in place, and produces the same bytes. */
    method InternalSerializeWithCachedSizesToArray(target: array<byte>, at: nat) returns (end: nat)
      requires Valid() && CachesFilled() && at + |Emit(S.OfflineMsgGroupRspAck, Value())| <= target.Length
      modifies target
      ensures Wrote(target, at, end, Emit(S.OfflineMsgGroupRspAck, Value()))
    {
      hide Assemble, Emit, EncodeNums, EncodeRecords, ErrorBytes, GroupBytes, Spliced;
      AssembleBytes(hasBits, content, msgId.elements, groupId, unknown);
      ghost var front := ErrorBytes(hasBits, content) + EncodeNums(2, msgId.elements);
      ghost var back := GroupBytes(hasBits, groupId) + EncodeRecords(unknown);
      assert front + back == Emit(S.OfflineMsgGroupRspAck, Value());
      ghost var t0 := target[..];
      var a := WriteFrontToArray(target, at);
      ghost var t1 := target[..];
      end := WriteBackToArray(target, a);
      SpliceJoin(t0, t1, target[..], at, a, end, front, back);
    }
  }
}

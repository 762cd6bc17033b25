/** offline_msg_p2p_rsp: a list of msg_p2p_recv objects, a total and a tag. */
module OfflineMsgP2pRspClass {
  import opened Wire
  import opened Unknown
  import opened Message
  import opened HasBits
  import opened Failing
  import opened Members
  import opened MergeLaws
  import opened MsgP2pRecvClass
  import opened MsgListClass
  import opened Sizing
  import opened Streams
  import opened Writing
  import S = Schemas

  const MSG_TAG: nat := 0
  const TOTAL: nat := 1

  /** The message that the members stand for. */
  ghost function Assemble(items: seq<Msg>, has: word, tag: bytes, total: int, unknown: seq<Record>): (m: Msg) {
    Msg([Subs(items), if TOTAL in has then Num(total) else Absent, if MSG_TAG in has then Raw(tag) else Absent], unknown)
  }

  lemma AssembleConforms(items: seq<Msg>, has: word, tag: bytes, total: int, unknown: seq<Record>)
    requires forall m | m in items :: Conforms(S.MsgP2pRecv, m)
    ensures Conforms(S.OfflineMsgP2pRsp, Assemble(items, has, tag, total, unknown))
  {
  }

  lemma AssembleEmpty()
    ensures Assemble([], {}, [], 0, []) == Empty(S.OfflineMsgP2pRsp)
  {
    assert Assemble([], {}, [], 0, []).slots == Empty(S.OfflineMsgP2pRsp).slots;
  }

  lemma AssembleMerge(a: seq<Msg>, h: word, t: bytes, n: int, u: seq<Record>,
                      a': seq<Msg>, h': word, t': bytes, n': int, u': seq<Record>)
    ensures Assemble(a + a', h + h', if MSG_TAG in h' then t' else t, if TOTAL in h' then n' else n, u + u')
         == Merge(Assemble(a, h, t, n, u), Assemble(a', h', t', n', u'))
  {
    var x, y := Assemble(a, h, t, n, u), Assemble(a', h', t', n', u');
    var z := Assemble(a + a', h + h', if MSG_TAG in h' then t' else t, if TOTAL in h' then n' else n, u + u');
    assert z.slots == Merge(x, y).slots;
  }

  ghost function TotalBytes(has: word, total: int): bytes {
    if TOTAL in has then EncodeTag(2, 0) + EncodeVarint(ToWire(total)) else []
  }

  ghost function TagBytes(has: word, tag: bytes): bytes {
    if MSG_TAG in has then EncodeTag(3, 2) + EmitDelimited(tag) else []
  }

  /** What is emitted, part by part. */
  lemma AssembleBytes(items: seq<Msg>, has: word, tag: bytes, total: int, unknown: seq<Record>)
    ensures Emit(S.OfflineMsgP2pRsp, Assemble(items, has, tag, total, unknown))
         == EmitSubs(1, S.MsgP2pRecv, items) + TotalBytes(has, total) + TagBytes(has, tag) + EncodeRecords(unknown)
  {
    hide EmitSubs, EncodeRecords, EncodeTag, EmitDelimited, EncodeVarint;
    var s, m := S.OfflineMsgP2pRsp, Assemble(items, has, tag, total, unknown);
    EmitEnd(s, m);
    assert EmitFrom(s, m, 2) == EmitSlot(s.fields[2], m.slots[2]) + EncodeRecords(unknown);
    assert EmitFrom(s, m, 1) == EmitSlot(s.fields[1], m.slots[1]) + EmitFrom(s, m, 2);
    assert EmitFrom(s, m, 0) == EmitSlot(s.fields[0], m.slots[0]) + EmitFrom(s, m, 1);
  }

  ghost function TotalSize(has: word, total: int): nat {
    if TOTAL in has then 1 + NumberSize(U32, total) else 0
  }

  ghost function TagSize(has: word, tag: bytes): nat {
    if MSG_TAG in has then 1 + DelimitedSize(|tag|) else 0
  }

  /** The size, part by part. */
  lemma AssembleSize(items: seq<Msg>, has: word, tag: bytes, total: int, unknown: seq<Record>)
    requires InRange(U32, total)
    ensures ByteSize(S.OfflineMsgP2pRsp, Assemble(items, has, tag, total, unknown))
         == SubsSize(1, S.MsgP2pRecv, items) + TotalSize(has, total) + TagSize(has, tag) + |EncodeRecords(unknown)|
  {
    hide SubsSize, EncodeRecords, EncodeTag, EncodeVarint, DelimitedSize, NumberSize;
    var s, m := S.OfflineMsgP2pRsp, Assemble(items, has, tag, total, unknown);
    SizeStep(s, m, 0);
    SizeStep(s, m, 1);
    SizeStep(s, m, 2);
    SizeEnd(s, m);
    ShortTag(2, 0);
    ShortTag(3, 2);
    NumberSizeIsExact(U32, total);
    assert SlotSize(s.fields[0], m.slots[0]) == SubsSize(1, S.MsgP2pRecv, items);
    assert SlotSize(s.fields[1], m.slots[1]) == TotalSize(has, total);
    assert SlotSize(s.fields[2], m.slots[2]) == TagSize(has, tag);
  }

  lemma ItemsInitialized(items: seq<Msg>, has: word, tag: bytes, total: int, unknown: seq<Record>)
    ensures Initialized(S.OfflineMsgP2pRsp, Assemble(items, has, tag, total, unknown))
        <==> forall m | m in items :: Initialized(S.MsgP2pRecv, m)
  {
    var s, m := S.OfflineMsgP2pRsp, Assemble(items, has, tag, total, unknown);
    assert InitializedField(s.fields[0], m.slots[0]) <==> forall x | x in items :: Initialized(S.MsgP2pRecv, x);
    assert InitializedField(s.fields[1], m.slots[1]) && InitializedField(s.fields[2], m.slots[2]);
  }

  /** The tags of the three cases of the switch. */
  lemma KnownTags(tag: nat)
    ensures Knows(S.OfflineMsgP2pRsp, tag) <==>
              (tag / 8 == 1 && tag % 256 == 10) || (tag / 8 == 2 && tag % 256 == 16) || (tag / 8 == 3 && tag % 256 == 26)
    ensures 1 <= tag / 8 <= 3 ==> Find(S.OfflineMsgP2pRsp.fields, tag / 8) == tag / 8 - 1 && tag < 32
  {
    S.FindConsecutive(S.OfflineMsgP2pRsp, tag / 8);
  }

  class OfflineMsgP2pRsp {
    const msgList: MsgList
    var hasBits: word
    var msgTag: bytes
    var total: int
    var unknown: seq<Record>
    var cachedSize: int

    ghost predicate Valid()
      reads this, msgList, msgList.repr
    {
      && msgList.Valid() && this !in msgList.repr
      && hasBits <= {MSG_TAG, TOTAL} && InRange(U32, total)
      && (MSG_TAG !in hasBits ==> msgTag == []) && (TOTAL !in hasBits ==> total == 0)
    }

    ghost function Value(): (m: Msg)
      reads this`hasBits, this`msgTag, this`total, this`unknown, msgList`states, msgList`size
    {
      Assemble(msgList.Items(), hasBits, msgTag, total, unknown)
    }

    constructor ()
      ensures Valid() && Value() == Empty(S.OfflineMsgP2pRsp)
      ensures fresh(msgList) && msgList.repr == {}
    {
      msgList := new MsgList();
      hasBits, msgTag, total, unknown, cachedSize := {}, [], 0, [], 0;
      new;
      AssembleEmpty();
    }

    /** Clear: the list keeps its cleared objects, and yet the object is observably new. */
    method Clear()
      requires Valid()
      modifies this, msgList, msgList.repr
      ensures Valid() && Value() == Empty(S.OfflineMsgP2pRsp) && msgList.repr == old(msgList.repr)
    {
      hide MsgList.ValidAt;
      msgList.Clear();
      if MSG_TAG in hasBits {
        msgTag := [];
      }
      total := 0;
      hasBits := {};
      unknown := [];
      AssembleEmpty();
    }

    method MergeFrom(from: OfflineMsgP2pRsp)
      requires Valid() && from.Valid() && from != this && msgList.Apart(from.msgList)
      requires from !in msgList.repr && this !in from.msgList.repr
      modifies this, msgList, msgList.repr
      ensures Valid() && Value() == Merge(old(Value()), from.Value())
      ensures from.Valid() && from.Value() == old(from.Value()) && fresh(msgList.repr - old(msgList.repr))
    {
      hide MsgList.ValidAt, MsgList.Items, Ones, Shl, Test, Assemble, Merge;
      ghost var a, h, t, n, u := msgList.Items(), hasBits, msgTag, total, unknown;
      unknown := unknown + from.unknown;
      msgList.MergeFrom(from.msgList);
      MaskValues();
      if Test(from.hasBits, 3) {
        if MSG_TAG in from.hasBits {
          hasBits := hasBits + {MSG_TAG};
          msgTag := from.msgTag;
        }
        if TOTAL in from.hasBits {
          total := from.total;
        }
        hasBits := hasBits + from.hasBits;
      } else {
        GuardOff(from.hasBits, 3, 2, 0);
        assert from.hasBits == {};
      }
      assert hasBits == h + from.hasBits;
      AssembleMerge(a, h, t, n, u, from.msgList.Items(), from.hasBits, from.msgTag, from.total, from.unknown);
    }

    /** CopyFrom: whatever the target held, it ends up equal to the source. */
    method CopyFrom(from: OfflineMsgP2pRsp)
      requires Valid() && from.Valid()
      requires from != this ==> msgList.Apart(from.msgList) && from !in msgList.repr && this !in from.msgList.repr
      modifies this, msgList, msgList.repr
      ensures Valid() && Value() == old(from.Value())
    {
      hide MsgList.ValidAt, Assemble;
      if from == this {
        return;
      }
      Clear();
      MergeFrom(from);
      from.ValueConforms();
      MergeLeftIdentity(S.OfflineMsgP2pRsp, from.Value());
    }

    lemma ValueConforms()
      requires Valid()
      ensures Conforms(S.OfflineMsgP2pRsp, Value())
    {
      msgList.ItemsConform();
      AssembleConforms(msgList.Items(), hasBits, msgTag, total, unknown);
    }

    /** IsInitialized: all elements are, checked from the last one down. */
    method IsInitialized() returns (r: bool)
      requires Valid()
      ensures r <==> Initialized(S.OfflineMsgP2pRsp, Value())
    {
      hide Initialized, MessageOf, MsgList.ValidAt, MsgP2pRecv.Valid, MsgP2pRecv.Value;
      msgList.ItemsConform();
      ItemsInitialized(msgList.Items(), hasBits, msgTag, total, unknown);
      var i := msgList.size;
      while i > 0
        invariant 0 <= i <= msgList.size
        invariant forall j | i <= j < msgList.size :: Initialized(S.MsgP2pRecv, msgList.Items()[j])
      {
        i := i - 1;
        msgList.ElementAt(msgList.size, i);
        var ok := msgList.elements[i].IsInitialized();
        if !ok {
          assert msgList.Items()[i] in msgList.Items();
          return false;
        }
      }
      return true;
    }

    // ------------------------------------------------------------- parsing

    /** The element case: add_msg_list, then ReadMessage into the new element. */
    method ReadElement(input: CodedInputStream) returns (ok: bool)
      requires Valid() && input.Valid() && 0 <= input.budget && input !in msgList.repr
      modifies msgList, msgList.repr, input`pos, input`limit, input`budget, input`legitimateEnd
      ensures Valid() && input.Valid() && fresh(msgList.repr - old(msgList.repr))
      ensures ok ==> input.limit == old(input.limit) && input.budget == old(input.budget)
      ensures ReadValue(RepeatedMessage(S.MsgP2pRecv), old(input.budget), old(Value()).slots[0], 2, old(input.Rest()))
              == if ok then Got(Value().slots[0], input.Rest()) else Bad
      ensures Value() == Put(old(Value()), 0, Value().slots[0])
      ensures LeavesValue(RepeatedMessage(S.MsgP2pRecv), old(input.budget), old(Value()).slots[0], 2, old(input.Rest()),
                          Value().slots[0])
    {
      hide MsgList.ValidAt, MsgList.Items, ReadNested, LeavesNested;
      ghost var before := msgList.Items();
      ok := msgList.AddRead(input);
      assert msgList.Items() == before + [msgList.Items()[|before|]];
    }

    method ReadTotal(input: CodedInputStream) returns (ok: bool)
      requires Valid() && input.Valid() && 0 <= input.budget && input !in msgList.repr
      modifies this`hasBits, this`total, input`pos
      ensures Valid() && input.Valid()
      ensures ReadValue(Scalar(U32), input.budget, old(Value()).slots[1], 0, old(input.Rest()))
              == if ok then Got(Value().slots[1], input.Rest()) else Bad
      ensures Value() == Put(old(Value()), 1, Value().slots[1])
      ensures Value().slots[1].Num? && InRange(U32, Value().slots[1].n)
    {
      hide MsgList.ValidAt, ReadValue;
      hasBits := hasBits + {TOTAL};
      var v;
      ok, v := input.ReadPrimitive(U32, input.budget, old(Value()).slots[1]);
      total := v;
    }

    method ReadMsgTag(input: CodedInputStream) returns (ok: bool)
      requires Valid() && input.Valid() && 0 <= input.budget && input !in msgList.repr
      modifies this`hasBits, this`msgTag, input`pos
      ensures Valid() && input.Valid()
      ensures ReadValue(Bytes, input.budget, old(Value()).slots[2], 2, old(input.Rest()))
              == if ok then Got(Value().slots[2], input.Rest()) else Bad
      ensures Value() == Put(old(Value()), 2, Value().slots[2]) && Value().slots[2].Raw?
    {
      hide MsgList.ValidAt;
      hasBits := hasBits + {MSG_TAG};
      var b;
      ok, b := input.ReadBytes();
      if ok {
        msgTag := b;
      }
    }

    method ReadField(input: CodedInputStream, tag: nat) returns (ok: bool)
      requires Valid() && input.Valid() && 0 <= input.budget && input !in msgList.repr && 1 <= tag < TWO_32
      modifies this, msgList, msgList.repr, input`pos, input`limit, input`budget, input`legitimateEnd
      ensures Valid() && input.Valid() && input !in msgList.repr && fresh(msgList.repr - old(msgList.repr))
      ensures ok ==> input.limit == old(input.limit) && input.budget == old(input.budget)
      ensures Message.ReadField(S.OfflineMsgP2pRsp, old(input.budget), old(Value()), tag, old(input.Rest()))
              == if ok then Got(Value(), input.Rest()) else Bad
      ensures !ok ==> LeavesField(S.OfflineMsgP2pRsp, old(input.budget), old(Value()), tag, old(input.Rest()), Value())
    {
      hide MsgList.ValidAt, MsgList.Items, Knows, ReadValue, LeavesNested, SkipField, Find;
      KnownTags(tag);
      if tag / 8 == 1 && tag % 256 == 10 {
        ok := ReadElement(input);
      } else if tag / 8 == 2 && tag % 256 == 16 {
        ok := ReadTotal(input);
      } else if tag / 8 == 3 && tag % 256 == 26 {
        ok := ReadMsgTag(input);
      } else {
        var p;
        ok, p := input.SkipUnknown(tag);
        if ok {
          unknown := unknown + [Record(tag / 8, p)];
        }
      }
    }

    /** MergePartialFromCodedStream, for every input and every prior content of the object. */
    method MergePartialFromCodedStream(input: CodedInputStream) returns (ok: bool)
      requires Valid() && input.Valid() && 0 <= input.budget && input !in msgList.repr
      modifies this, msgList, msgList.repr, input`pos, input`limit, input`budget, input`legitimateEnd
      ensures Valid() && input.Valid() && fresh(msgList.repr - old(msgList.repr))
      ensures match Parse(S.OfflineMsgP2pRsp, old(input.budget), old(Value()), old(input.Rest()))
              case Complete(m) => ok && Value() == m && input.Rest() == [] && input.legitimateEnd
              case Stopped(m) => ok && Value() == m && !input.legitimateEnd
              case Failed => !ok
      ensures Leaves(S.OfflineMsgP2pRsp, old(input.budget), old(Value()), old(input.Rest()), Value())
    {
      hide Valid, Value, Follows, Parse, Leaves, LeavesField, Message.ReadField;
      ghost var m0, bs0 := Value(), input.Rest();
      FollowsStart(S.OfflineMsgP2pRsp, input.budget, m0, bs0);
      while true
        invariant Valid() && input.Valid() && input !in msgList.repr && fresh(msgList.repr - old(msgList.repr))
        invariant input.limit == old(input.limit) && input.budget == old(input.budget)
        invariant Follows(S.OfflineMsgP2pRsp, input.budget, m0, bs0, Value(), input.Rest())
        decreases |input.Rest()|
      {
        Turn(S.OfflineMsgP2pRsp, input.budget, m0, bs0, Value(), input.Rest());
        var tag := input.ReadTag();
        if tag == 0 {
          return true;
        }
        ok := ReadField(input, tag);
        if !ok {
          return false;
        }
      }
    }

    // ------------------------------------------------- size and serializing

    /** Every cached size below this object, down to the leaves, is the encoded length of its message. */
    ghost predicate CachesExact()
      requires Valid()
      reads this, msgList, msgList.repr
    {
      forall i | 0 <= i < msgList.size :: msgList.elements[i].CacheExact() && msgList.elements[i].CachesExact()
    }

    /** Every cached size below this object is what ByteSizeLong leaves. */
    ghost predicate CachesFilled()
      requires Valid()
      reads this, msgList, msgList.repr
    {
      forall i | 0 <= i < msgList.size :: msgList.Cached(i)
    }

    /** total_size += count, then the MessageSize of every element. */
    method ListSize() returns (n: nat)
      requires Valid()
      modifies msgList.repr
      ensures Valid() && Value() == old(Value())
      ensures n == SubsSize(1, S.MsgP2pRecv, msgList.Items())
      ensures forall i | 0 <= i < msgList.size :: msgList.Cached(i)
    {
      hide MessageOf, MsgList.ValidAt, MsgList.Cached, SubsSize, ByteSize, Assemble, MsgP2pRecv.Linked;
      msgList.Within(msgList.size);
      n := 1 * msgList.size;
      ghost var items, sts := msgList.Items(), msgList.states;
      msgList.ItemsConform();
      assert SubsSize(1, S.MsgP2pRecv, []) == 0 by { NothingCounted(1, S.MsgP2pRecv); }
      var i := 0;
      while i < msgList.size
        invariant i <= msgList.size == |items| && Valid() && msgList.states == sts
        invariant n == SubsSize(1, S.MsgP2pRecv, items[..i]) + (msgList.size - i)
        invariant forall j | 0 <= j < i :: msgList.Cached(j)
      {
        msgList.ElementAt(msgList.size, i);
        var size := msgList.SizeAt(i, msgList.elements[i]);
        n := n + DelimitedSize(size);
        assert items[..i + 1] == items[..i] + [items[i]];
        SubsSizeSnoc(1, S.MsgP2pRecv, items[..i], items[i]);
        ShortTag(1, 2);
        i := i + 1;
      }
      assert items[..i] == items;
    }

    /** The group guarded by 3. */
    method OptionalSize() returns (n: nat)
      requires hasBits <= {MSG_TAG, TOTAL}
      ensures n == TotalSize(hasBits, total) + TagSize(hasBits, msgTag)
    {
      hide Ones, Shl, Test, DelimitedSize, NumberSize;
      MaskValues();
      GuardOff(hasBits, 3, 2, 0);
      n := 0;
      if Test(hasBits, 3) {
        if MSG_TAG in hasBits {
          n := n + 1 + DelimitedSize(|msgTag|);
        }
        if TOTAL in hasBits {
          n := n + 1 + NumberSize(U32, total);
        }
      }
    }

    /** ByteSizeLong: the number of bytes that will be emitted, whatever the content, with every cache below
        filled; and under 2^31 these caches are the encoded lengths. */
    method ByteSizeLong() returns (n: nat)
      requires Valid()
      modifies this`cachedSize, msgList.repr
      ensures Valid() && Value() == old(Value())
      ensures n == ByteSize(S.OfflineMsgP2pRsp, Value()) == |Emit(S.OfflineMsgP2pRsp, Value())|
      ensures cachedSize == ToCachedSize(n) && CachesFilled()
      ensures n < TWO_31 ==> n == |Serialize(S.OfflineMsgP2pRsp, Value())| && CachesExact()
    {
      hide MsgList.ValidAt, MsgList.Items, MsgList.Cached, Serialize, Emit, ByteSize, SubsSize, EncodeRecords;
      hide Assemble, TotalSize, TagSize;
      NoneWritten(1, S.MsgP2pRecv);
      n := 0;
      if unknown != [] {
        n := n + |EncodeRecords(unknown)|;
      }
      var list := ListSize();
      var optional := OptionalSize();
      n := n + list + optional;
      cachedSize := ToCachedSize(n);
      AssembleSize(msgList.Items(), hasBits, msgTag, total, unknown);
      EmitLength(S.OfflineMsgP2pRsp, Value());
      if n < TWO_31 {
        SmallIsExact(S.OfflineMsgP2pRsp, Value());
        SmallCaches();
      }
    }

    /** Filled caches are exact when the list is under 2^31 bytes. */
    lemma SmallCaches()
      requires Valid() && CachesFilled() && SubsSize(1, S.MsgP2pRecv, msgList.Items()) < TWO_31
      ensures CachesExact()
    {
      hide MessageOf, SubsSize, ByteSize, Serialize, Separate, IsFresh, MsgP2pRecv.Linked, MsgP2pRecv.CachesExact;
      hide MsgP2pRecv.CachesFilled;
      msgList.ItemsConform();
      forall i | 0 <= i < msgList.size
        ensures msgList.elements[i].CacheExact() && msgList.elements[i].CachesExact()
      {
        assert msgList.Cached(i);
        msgList.ElementAt(msgList.size, i);
        SubSizeWithin(1, S.MsgP2pRecv, msgList.Items(), i);
        SmallIsExact(S.MsgP2pRecv, msgList.Items()[i]);
        msgList.elements[i].SmallCaches();
      }
    }

    /** The loop over the list: each element behind its cached size. */
    method WriteList(out: bytes) returns (r: bytes)
      requires Valid() && CachesFilled()
      ensures r == out + EmitSubs(1, S.MsgP2pRecv, msgList.Items())
    {
      hide MessageOf, Emit, EmitSubs, ByteSize, MsgList.ValidAt, MsgP2pRecv.CachesFilled, MsgP2pRecv.Valid, EncodeTag;
      hide EncodeVarint;
      r := out;
      ghost var items := msgList.Items();
      msgList.ItemsConform();
      NothingCounted(1, S.MsgP2pRecv);
      var i := 0;
      while i < msgList.size
        invariant i <= msgList.size
        invariant r == out + EmitSubs(1, S.MsgP2pRecv, items[..i])
      {
        ghost var before := r;
        msgList.ElementAt(msgList.size, i);
        assert msgList.Cached(i);
        EmitLength(S.MsgP2pRecv, items[i]);
        CachedPrefix(ByteSize(S.MsgP2pRecv, items[i]));
        var e := msgList.elements[i];
        r := r + EncodeTag(1, 2) + EncodeVarint(e.cachedSize % TWO_32);
        r := e.SerializeWithCachedSizes(r);
        assert r == before + (EncodeTag(1, 2) + EmitDelimited(Emit(S.MsgP2pRecv, items[i])));
        assert items[..i + 1] == items[..i] + [items[i]];
        EmitSubsSnoc(1, S.MsgP2pRecv, items[..i], items[i]);
        i := i + 1;
      }
      assert items[..i] == items;
    }

    /** The optional fields. */
    method WriteOptional(out: bytes) returns (r: bytes)
      ensures r == out + TotalBytes(hasBits, total) + TagBytes(hasBits, msgTag)
    {
      hide EncodeTag, EncodeVarint, EmitDelimited;
      r := out;
      if TOTAL in hasBits {
        r := r + (EncodeTag(2, 0) + EncodeVarint(ToWire(total)));
      }
      if MSG_TAG in hasBits {
        r := r + (EncodeTag(3, 2) + EmitDelimited(msgTag));
      }
    }

    /** SerializeWithCachedSizes: from filled caches it writes the whole tree as it was counted. */
    method SerializeWithCachedSizes(out: bytes) returns (r: bytes)
      requires Valid() && CachesFilled()
      ensures r == out + Emit(S.OfflineMsgP2pRsp, Value())
    {
      hide MsgList.ValidAt, MsgList.Items, Assemble, Emit, EmitSubs, EncodeRecords, TotalBytes, TagBytes, CachesFilled;
      NoneWritten(1, S.MsgP2pRecv);
      AssembleBytes(msgList.Items(), hasBits, msgTag, total, unknown);
      Regroup(out, EmitSubs(1, S.MsgP2pRecv, msgList.Items()), TotalBytes(hasBits, total),
              TagBytes(hasBits, msgTag), EncodeRecords(unknown));
      r := WriteList(out);
      r := WriteOptional(r);
      if unknown != [] {
        r := r + EncodeRecords(unknown);
      }
    }
  }
}

/** msg_p2p_recv: two strings, a nested msg_content and seven numbers behind one has-bits word. */
module MsgP2pRecvClass {
  import opened Wire
  import opened Unknown
  import opened Message
  import opened HasBits
  import opened Failing
  import opened Members
  import opened MergeLaws
  import C = MsgContentClass
  import opened Nested
  import opened Sizing
  import opened Streams
  import opened Writing
  import S = Schemas
  import P = Presence

  // The has-bit of each member.
  const SEND_NICKNAME: nat := 0
  const SEND_AVATAR: nat := 1
  const MSG: nat := 2
  const SEND_ID: nat := 3
  const USER_TYPE: nat := 4
  const MSG_ID: nat := 5
  const SEND_TIME: nat := 6
  const MSG_TYPE: nat := 7
  const RECEIVER_TYPE: nat := 8
  const RECEIVER_ID: nat := 9
  const STRINGS: nat := 2
  const BASE: nat := 3
  const BITS: nat := 10
  /** The index of the nested field. */
  const MSG_FIELD: nat := 7

  const BIT_OF: seq<nat> := [
    SEND_ID, USER_TYPE, MSG_ID, SEND_TIME, SEND_NICKNAME, SEND_AVATAR, MSG_TYPE, MSG, RECEIVER_TYPE, RECEIVER_ID]
  const FIELD_OF: seq<nat> := [4, 5, 7, 0, 1, 2, 3, 6, 8, 9]
  const TAG_OF: seq<nat> := [8, 16, 24, 32, 42, 50, 56, 66, 72, 80]

  lemma BitsMatch(i: nat)
    requires i < BITS
    ensures BIT_OF[i] < BITS && FIELD_OF[BIT_OF[i]] == i
    ensures FIELD_OF[i] < BITS && BIT_OF[FIELD_OF[i]] == i
  {
  }

  lemma FieldMatches(i: nat)
    requires i < BITS
    ensures S.MsgP2pRecv.fields[i].number == i + 1
    ensures TAG_OF[i] == MakeTag(i + 1, WireType(S.MsgP2pRecv.fields[i].kind))
    ensures BIT_OF[i] < STRINGS ==> S.MsgP2pRecv.fields[i].kind.Bytes?
    ensures BIT_OF[i] == MSG ==> S.MsgP2pRecv.fields[i].kind.Message?
    ensures BIT_OF[i] >= BASE ==> S.MsgP2pRecv.fields[i].kind.Scalar?
  {
  }

  lemma ShapeSound(l: Layout)
    requires l == Layout(S.MsgP2pRecv, STRINGS, 1, BIT_OF, FIELD_OF, TAG_OF)
    ensures Sound(l)
  {
    forall i | 0 <= i < BITS
      ensures l.bitOf[i] < BITS && l.fieldOf[l.bitOf[i]] == i
      ensures l.tagOf[i] == MakeTag(i + 1, WireType(l.schema.fields[i].kind))
      ensures l.schema.fields[i].number == i + 1 && KindAt(l, l.bitOf[i], l.schema.fields[i].kind)
    {
      BitsMatch(i);
      FieldMatches(i);
    }
    forall k | 0 <= k < BITS ensures l.fieldOf[k] < BITS && l.bitOf[l.fieldOf[k]] == k { BitsMatch(k); }
  }

  /** The has-bits, tags and types of the class agree with its schema. */
  function Shape(): (l: Layout)
    ensures Sound(l) && l.schema == S.MsgP2pRecv
    ensures l.strings == STRINGS && l.nested == 1 && |l.bitOf| == |l.fieldOf| == |l.tagOf| == BITS
    ensures l.fieldOf[MSG] == MSG_FIELD && KindOf(l, MSG) == Message(S.MsgContent) && SubSchema(l, 0) == S.MsgContent
  {
    var l := Layout(S.MsgP2pRecv, STRINGS, 1, BIT_OF, FIELD_OF, TAG_OF);
    ShapeSound(l);
    l
  }

  /** The has-bit of each field in field order, and the slot that each accessor works on. */
  lemma AccessorSlots()
    ensures Shape().bitOf == [3, 4, 5, 6, 0, 1, 7, 2, 8, 9]
    ensures var f := Shape().fieldOf;
            && f[SEND_NICKNAME] == 4 && f[SEND_AVATAR] == 5 && f[MSG] == 7 && f[SEND_ID] == 0 && f[USER_TYPE] == 1
            && f[MSG_ID] == 2 && f[SEND_TIME] == 3 && f[MSG_TYPE] == 6 && f[RECEIVER_TYPE] == 8 && f[RECEIVER_ID] == 9
  {
    hide Sound;
  }

  /** The values a number can be set to: msg_id and send_time are uint64, the rest uint32. */
  predicate Fits(k: nat, n: int) {
    if k == MSG_ID || k == SEND_TIME then 0 <= n < 0x1_0000_0000_0000_0000 else 0 <= n < 0x1_0000_0000
  }

  lemma FitsIff(k: nat, n: int)
    requires BASE <= k < BITS
    ensures Fits(k, n) <==> InRange(KindOf(Shape(), k).w, n)
  {
    var i := Shape().fieldOf[k];
    assert k == BIT_OF[i] && i in {0, 1, 2, 3, 6, 8, 9};
  }

  /** The message that the members stand for. */
  ghost function MessageOf(st: Store): (m: Msg) {
    if Shaped(Shape(), st) then ValueOf(Shape(), st) else Empty(S.MsgP2pRecv)
  }

  /** Which slots the required has-bits stand for. */
  lemma RequiredSlots(st: Store)
    requires Invariant(Shape(), st)
    ensures var m := ValueOf(Shape(), st);
            && (m.slots[0].Absent? <==> SEND_ID !in st.has) && (m.slots[1].Absent? <==> USER_TYPE !in st.has)
            && (m.slots[2].Absent? <==> MSG_ID !in st.has) && (m.slots[3].Absent? <==> SEND_TIME !in st.has)
            && (m.slots[6].Absent? <==> MSG_TYPE !in st.has)
            && (MSG in st.has ==> st.subs[0].To?)
            && m.slots[7] == if MSG in st.has then Sub(st.subs[0].msg) else Absent
  {
    AbsentIffClear(Shape(), st, SEND_ID);
    AbsentIffClear(Shape(), st, USER_TYPE);
    AbsentIffClear(Shape(), st, MSG_ID);
    AbsentIffClear(Shape(), st, SEND_TIME);
    AbsentIffClear(Shape(), st, MSG_TYPE);
    MemberSlot(Shape(), st, MSG);
  }

  lemma SixBits(h: word)
    ensures (forall k | 2 <= k < 8 :: k in h) <==> 2 in h && 3 in h && 4 in h && 5 in h && 6 in h && 7 in h
  {
  }

  lemma RequiredBits(st: Store)
    requires Invariant(Shape(), st)
    ensures Shaped(Shape(), st) && (MSG in st.has ==> st.subs[0].To?)
    ensures Initialized(S.MsgP2pRecv, ValueOf(Shape(), st))
        <==> (forall k | 2 <= k < 8 :: k in st.has) && Initialized(S.MsgContent, st.subs[0].msg)
  {
    hide Shape, Sound, Invariant, ValueOf, Initialized;
    SlotCount(Shape(), st);
    Bounds(Shape(), st);
    RequiredSlots(st);
    P.MsgP2pRecvRequired(ValueOf(Shape(), st));
    SixBits(st.has);
  }

  /** The size of the message, cut into the groups that ByteSizeLong adds up. */
  lemma SizeParts(st: Store)
    requires Invariant(Shape(), st)
    ensures ByteSize(S.MsgP2pRecv, MessageOf(st))
         == |EncodeRecords(st.unknown)|
            + LenSum(Shape(), st, 0, 2) + LenSum(Shape(), st, 2, 8) + LenSum(Shape(), st, 8, 10)
  {
    hide LenSum, ByteSize, EncodeRecords, ValueOf;
    Bounds(Shape(), st);
    TotalLength(Shape(), st);
    LenSumJoin(Shape(), st, 0, 2, 10);
    LenSumJoin(Shape(), st, 2, 8, 10);
  }

  lemma NestedSize(st: Store)
    requires Invariant(Shape(), st)
    ensures MSG in st.has ==>
              && st.subs[0].To?
              && ByteSize(S.MsgContent, st.subs[0].msg) < ByteSize(S.MsgP2pRecv, MessageOf(st))
  {
    hide ByteSize, ValueOf;
    Bounds(Shape(), st);
    if MSG in st.has { NestedWithin(Shape(), st, MSG); }
  }

  /** The one nested pointer, merged or left alone. */
  lemma SubMerged(a: Store, b: Store, ps: seq<Pointee>)
    requires Invariant(Shape(), a) && Invariant(Shape(), b)
    requires ps == if MSG in b.has then [MergedSub(S.MsgContent, a.subs[0], true, b.subs[0])] else a.subs
    ensures SubsUpto(Shape(), ps, a.subs, b.has, b.subs, 3)
  {
    hide Shape, Sound, Merge;
  }

  lemma MergedMessage(a: Store, b: Store, r: Store, h: word)
    requires Invariant(Shape(), a) && Invariant(Shape(), b)
    requires MergedUpto(h, r.strs, a.has, a.strs, b.has, b.strs, 3)
    requires NumbersUpto(BASE, r.nums, a.nums, b.has, b.nums, BITS)
    requires r.has == a.has + b.has && r.unknown == a.unknown + b.unknown
    requires SubsUpto(Shape(), r.subs, a.subs, b.has, b.subs, 3)
    ensures Invariant(Shape(), r) && MessageOf(r) == Merge(MessageOf(a), MessageOf(b))
  {
    hide Shape, Sound, Invariant, ValueOf, MergedUpto, NumbersUpto, SubsUpto, Merge;
    Bounds(Shape(), a);
    Bounds(Shape(), b);
    MergeEnd(Shape(), a, b, r, h, 3);
    Bounds(Shape(), r);
  }

  lemma ClearStart(st: Store)
    requires Invariant(Shape(), st)
    ensures |st.nums| == 7 && forall j | 0 <= j < 7 && j + BASE !in st.has :: st.nums[j] == 0
  {
    hide Shape, Sound;
  }

  lemma ClearEnd(st: Store)
    requires st.has == {} && st.unknown == [] && st.strs == [[], []] && st.nums == [0, 0, 0, 0, 0, 0, 0]
    requires st.subs == [Null] || st.subs == [To(Empty(S.MsgContent))]
    ensures Invariant(Shape(), st) && IsFresh(Shape(), st) && MessageOf(st) == Empty(S.MsgP2pRecv)
  {
    hide Shape, Sound, Invariant, ValueOf;
    FreshInvariant(Shape(), st);
  }

  class MsgP2pRecv {
    var hasBits: word
    var strs: seq<bytes>
    var msg: C.MsgContent?
    var nums: seq<int>
    var unknown: seq<Record>
    var cachedSize: int
    ghost var content: Pointee
    ghost var below: set<C.MsgContent>
    ghost var leaves: set<SubMessage>

    ghost function Snap(): (st: Store)
      reads this`hasBits, this`strs, this`content, this`nums, this`unknown
    {
      Store(hasBits, strs, [content], nums, unknown)
    }

    /** The recorded content and footprint are those of the nested object. */
    ghost predicate Linked()
      reads this`msg, this`content, this`below, this`leaves
      reads below`hasBits, below`parts, below`contents, below`unknown, leaves`val
    {
      if msg == null then content == Null && below == {} && leaves == {}
      else below == {msg} && leaves == msg.Parts() && msg.Valid() && content == To(msg.Value())
    }

    ghost predicate Valid()
      reads this`hasBits, this`strs, this`msg, this`content, this`below, this`leaves, this`nums, this`unknown
      reads below`hasBits, below`parts, below`contents, below`unknown, leaves`val
    {
      Invariant(Shape(), Snap()) && Linked()
    }

    /** The message this object stands for. */
    ghost function Value(): (m: Msg)
      reads this`hasBits, this`strs, this`content, this`nums, this`unknown
    {
      MessageOf(Snap())
    }

    /** A set bit has its object, and the record agrees with it. */
    lemma Reach()
      requires Valid()
      ensures MSG in hasBits ==> msg != null && msg.Valid() && content == To(msg.Value())
    {
      hide Shape, Sound, C.MsgContent.Valid, C.MsgContent.Value;
      Bounds(Shape(), Snap());
    }

    lemma Footprint()
      requires Valid()
      ensures if msg == null then below == {} && leaves == {} else below == {msg} && leaves == msg.Parts()
    {
    }

    lemma ValueOk()
      requires Valid()
      ensures Conforms(S.MsgP2pRecv, Value())
    {
      hide Shape, Sound, Invariant, ValueOf, Conforms, Linked;
      Bounds(Shape(), Snap());
      ValueConforms(Shape(), Snap());
    }

    /** The two objects share nothing. */
    ghost predicate Apart(from: MsgP2pRecv)
      reads this`below, this`leaves, from`below, from`leaves
    {
      from != this && below !! from.below && leaves !! from.leaves
    }

    constructor ()
      ensures Valid() && IsFresh(Shape(), Snap()) && Value() == Empty(S.MsgP2pRecv)
      ensures msg == null && below == {} && leaves == {}
    {
      hasBits, strs, msg, nums, unknown, cachedSize := {}, [[], []], null, [0, 0, 0, 0, 0, 0, 0], [], 0;
      content, below, leaves := Null, {}, {};
      new;
      FreshInvariant(Shape(), Snap());
    }

    // ---------------------------------------------------------- accessors

    predicate Has(k: nat) reads this { k in hasBits }

    method SetString(k: nat, value: bytes)
      requires Valid() && k < STRINGS
      modifies this`hasBits, this`strs
      ensures Valid() && Value() == Put(old(Value()), Shape().fieldOf[k], Raw(value))
    {
      hide Shape, Invariant, ValueOf, Linked;
      Bounds(Shape(), Snap());
      StoreString(Shape(), Snap(), k, value);
      hasBits := hasBits + {k};
      strs := strs[k := value];
    }

    method SetNumber(k: nat, value: int)
      requires Valid() && BASE <= k < BITS && Fits(k, value)
      modifies this`hasBits, this`nums
      ensures Valid() && Value() == Put(old(Value()), Shape().fieldOf[k], Num(value))
    {
      hide Shape, Invariant, ValueOf, Linked;
      Bounds(Shape(), Snap());
      FitsIff(k, value);
      StoreNumber(Shape(), Snap(), k, value);
      hasBits := hasBits + {k};
      nums := nums[k - BASE := value];
    }

    method ClearString(k: nat)
      requires Valid() && k < STRINGS
      modifies this`hasBits, this`strs
      ensures Valid() && Value() == Put(old(Value()), Shape().fieldOf[k], Absent)
    {
      hide Shape, Invariant, ValueOf, Linked;
      Bounds(Shape(), Snap());
      strs := strs[k := []];
      hasBits := hasBits - {k};
      DropString(Shape(), old(Snap()), k);
    }

    method ClearNumber(k: nat)
      requires Valid() && BASE <= k < BITS
      modifies this`hasBits, this`nums
      ensures Valid() && Value() == Put(old(Value()), Shape().fieldOf[k], Absent)
    {
      hide Shape, Invariant, ValueOf, Linked;
      Bounds(Shape(), Snap());
      nums := nums[k - BASE := 0];
      hasBits := hasBits - {k};
      DropNumber(Shape(), old(Snap()), k);
    }

    /** A string member and its field hold the same bytes; an absent field has an empty member. */
    lemma StringHeld(k: nat)
      requires Valid() && k < STRINGS
      ensures |strs| == STRINGS && |Value().slots| == BITS && Shape().fieldOf[k] < BITS
      ensures var v := Value().slots[Shape().fieldOf[k]];
              if v.Raw? then v.data == strs[k] else v == Absent && strs[k] == []
    {
      hide Shape, Sound, Linked, ValueOf;
      Bounds(Shape(), Snap());
      SlotCount(Shape(), Snap());
      MemberSlot(Shape(), Snap(), k);
    }

    /** mutable_ of a string: marks it present and keeps its content. */
    method MutableString(k: nat)
      requires Valid() && k < STRINGS
      modifies this`hasBits
      ensures Valid() && Value() == Put(old(Value()), Shape().fieldOf[k], Raw(strs[k]))
    {
      hide Shape, Invariant, ValueOf, Linked;
      Bounds(Shape(), Snap());
      StoreString(Shape(), Snap(), k, strs[k]);
      assert strs[k := strs[k]] == strs;
      hasBits := hasBits + {k};
    }

    /** release_ of a string: null when the bit is clear, otherwise the content, leaving the default behind. */
    method ReleaseString(k: nat) returns (owned: bool, value: bytes)
      requires Valid() && k < STRINGS
      modifies this`hasBits, this`strs
      ensures Valid() && old(Value()).slots[Shape().fieldOf[k]] == if owned then Raw(value) else Absent
      ensures Value() == Put(old(Value()), Shape().fieldOf[k], Absent)
    {
      hide Shape, Invariant, ValueOf, Linked;
      Bounds(Shape(), Snap());
      MemberSlot(Shape(), Snap(), k);
      if k !in hasBits {
        return false, [];
      }
      hasBits := hasBits - {k};
      value := strs[k];
      strs := strs[k := []];
      DropString(Shape(), old(Snap()), k);
      return true, value;
    }

    /** set_allocated_ of a string: a null argument clears the field. */
    method SetAllocatedString(k: nat, isNull: bool, value: bytes)
      requires Valid() && k < STRINGS
      modifies this`hasBits, this`strs
      ensures Valid() && Value() == Put(old(Value()), Shape().fieldOf[k], if isNull then Absent else Raw(value))
    {
      if isNull {
        ClearString(k);
      } else {
        SetString(k, value);
      }
    }

    /** The steps of mutable_msg: set the bit, then make sure there is an object. */
    method EnsureMsg() returns (p: C.MsgContent)
      requires Linked()
      modifies this`hasBits, this`msg, this`content, this`below, this`leaves
      ensures Linked() && p == msg && p.Valid() && hasBits == old(hasBits) + {MSG}
      ensures if old(msg) == null then fresh(p) && p.Parts() == {} else p == old(msg)
      ensures p.Value() == Content(old(content), S.MsgContent) && content == To(p.Value())
    {
      hide C.MsgContent.Valid, C.MsgContent.Value, IsFresh;
      hasBits := hasBits + {MSG};
      if msg == null {
        msg := new C.MsgContent();
        Relink();
      }
      return msg;
    }

    /** Records the nested message after it was changed through its own object. */
    ghost method Relink()
      requires msg != null && msg.Valid()
      modifies this`content, this`below, this`leaves
      ensures Linked() && content == To(msg.Value()) && below == {msg} && leaves == msg.Parts()
    {
      content, below, leaves := To(msg.Value()), {msg}, msg.Parts();
    }

    /** What mutable_msg will expose. */
    lemma Held()
      requires Valid()
      ensures |Value().slots| == BITS
      ensures var c := Content(content, S.MsgContent);
              c == Existing(Value().slots[MSG_FIELD], S.MsgContent) && Conforms(S.MsgContent, c)
    {
      hide Shape, Sound, Invariant, Conforms, Linked;
      MemberSlot(Shape(), Snap(), MSG);
      Bounds(Shape(), Snap());
      PointerAt(Shape(), Snap(), 0);
      EmptyConforms(S.MsgContent);
    }

    /** The nested message is `p` and its bit is set: the object is valid and its field is that message. */
    lemma Stored(before: Store)
      requires Invariant(Shape(), before) && Shaped(Shape(), before) && Linked() && msg != null
      requires Snap() == before.(has := before.has + {MSG}, subs := [content])
      ensures Valid() && content == To(msg.Value())
      ensures |Value().slots| == |ValueOf(Shape(), before).slots| == BITS
      ensures Value() == Put(ValueOf(Shape(), before), MSG_FIELD, Sub(msg.Value()))
    {
      hide Shape, Sound, Invariant, ValueOf, Conforms, C.MsgContent.Valid, C.MsgContent.Value;
      msg.ValueOk();
      Bounds(Shape(), before);
      assert [content] == before.subs[0 := content];
      StoreNested(Shape(), before, MSG, msg.Value());
      SlotCount(Shape(), before);
      SlotCount(Shape(), Snap());
    }

    /** Takes note of what was done to the nested message through its own object. */
    ghost method Settle(before: Store)
      requires Invariant(Shape(), before) && msg != null && msg.Valid()
      requires Store(hasBits, strs, before.subs, nums, unknown) == before.(has := before.has + {MSG})
      modifies this`content, this`below, this`leaves
      ensures Valid() && below == {msg} && leaves == msg.Parts()
      ensures |MessageOf(before).slots| == BITS && Value() == Put(MessageOf(before), MSG_FIELD, Sub(msg.Value()))
    {
      hide Shape, Sound, Invariant, ValueOf, Linked, C.MsgContent.Valid, C.MsgContent.Value;
      Bounds(Shape(), before);
      Relink();
      Stored(before);
    }

    /** mutable_msg: a clear bit over a kept object exposes an empty message, as a new object would. */
    method MutableMsg() returns (p: C.MsgContent)
      requires Valid()
      modifies this`hasBits, this`msg, this`content, this`below, this`leaves
      ensures Valid() && p == msg && p.Valid() && hasBits == old(hasBits) + {MSG}
      ensures if old(msg) == null then fresh(p) && p.Parts() == {} else p == old(msg)
      ensures |old(Value()).slots| == BITS && p.Value() == Existing(old(Value()).slots[MSG_FIELD], S.MsgContent)
      ensures Value() == Put(old(Value()), MSG_FIELD, Sub(p.Value()))
    {
      hide Shape, Sound, Invariant, ValueOf, Linked, Existing, C.MsgContent.Valid, C.MsgContent.Value;
      Held();
      Bounds(Shape(), Snap());
      p := EnsureMsg();
      Stored(old(Snap()));
    }

    /** release_msg: hands the object over, cleared or not, and forgets it. */
    method ReleaseMsg() returns (p: C.MsgContent?)
      requires Valid()
      modifies this`hasBits, this`msg, this`content, this`below, this`leaves
      ensures Valid() && p == old(msg) && msg == null && below == {} && leaves == {}
      ensures Value() == Put(old(Value()), MSG_FIELD, Absent)
      ensures MSG in old(hasBits) ==> p != null && old(Value()).slots[MSG_FIELD] == Sub(p.Value())
    {
      hide Shape, Sound, Invariant, ValueOf, C.MsgContent.Valid, C.MsgContent.Value;
      Bounds(Shape(), Snap());
      MemberSlot(Shape(), Snap(), MSG);
      hasBits := hasBits - {MSG};
      p := msg;
      msg, content, below, leaves := null, Null, {}, {};
      DropNested(Shape(), old(Snap()), MSG, Null);
      assert Snap().subs == old(Snap()).subs[0 := Null];
    }

    /** set_allocated_msg: takes the object over; null clears the field. */
    method SetAllocatedMsg(p: C.MsgContent?)
      requires Valid() && (p != null ==> p.Valid())
      modifies this`hasBits, this`msg, this`content, this`below, this`leaves
      ensures Valid() && msg == p
      ensures if p == null then below == {} && leaves == {} else below == {p} && leaves == p.Parts()
      ensures Value() == Put(old(Value()), MSG_FIELD, if p == null then Absent else Sub(p.Value()))
    {
      hide Shape, Invariant, ValueOf, C.MsgContent.Valid, C.MsgContent.Value;
      Bounds(Shape(), Snap());
      msg := p;
      if p != null {
        hasBits := hasBits + {MSG};
        Relink();
        Stored(old(Snap()));
      } else {
        hasBits := hasBits - {MSG};
        content, below, leaves := Null, {}, {};
        DropNested(Shape(), old(Snap()), MSG, Null);
        assert Snap().subs == old(Snap()).subs[0 := Null];
      }
    }

    /** clear_msg keeps the object but empties it. */
    method ClearMsg()
      requires Valid()
      modifies this`hasBits, this`content, this`below, this`leaves
      modifies below`hasBits, below`parts, below`contents, below`unknown, leaves`val
      ensures Valid() && msg == old(msg) && below == old(below) && leaves == old(leaves)
      ensures Value() == Put(old(Value()), MSG_FIELD, Absent)
    {
      hide Shape, Sound, Invariant, ValueOf, C.MsgContent.Valid, C.MsgContent.Value, IsFresh;
      Bounds(Shape(), Snap());
      if msg != null {
        msg.Clear();
        Relink();
      }
      hasBits := hasBits - {MSG};
      DropNested(Shape(), old(Snap()), MSG, content);
      assert Snap().subs == old(Snap()).subs[0 := content];
    }

    // -------------------------------------------------------------- Clear

    method ClearIfSet(k: nat, ghost start: seq<bytes>)
      requires ClearedUpto(strs, start, k) && k < |strs| && (k !in hasBits ==> start[k] == [])
      modifies this`strs
      ensures ClearedUpto(strs, start, k + 1)
    {
      if k in hasBits { strs := strs[k := []]; }
    }

    /** The group guarded by 7: the strings and the nested message. */
    method ClearPointers()
      requires Valid()
      modifies this`strs, this`content, this`below, this`leaves
      modifies below`hasBits, below`parts, below`contents, below`unknown, leaves`val
      ensures strs == [[], []] && Linked() && (content == Null || content == To(Empty(S.MsgContent)))
      ensures below == old(below) && leaves == old(leaves)
    {
      hide Shape, Ones, Shl, Test, Sound, C.MsgContent.Valid, C.MsgContent.Value, IsFresh;
      ghost var start := strs;
      MaskValues();
      if Test(hasBits, 7) {
        ClearIfSet(SEND_NICKNAME, start);
        ClearIfSet(SEND_AVATAR, start);
        if MSG in hasBits {
          msg.Clear();
          Relink();
        }
      } else {
        GuardOff(hasBits, 7, 3, 0);
      }
    }

    /** The groups guarded by 248 and 768: the two runs of the scalar block. */
    method ClearNumbers()
      requires |nums| == 7 && forall j | 0 <= j < 7 && j + BASE !in hasBits :: nums[j] == 0
      modifies this`nums
      ensures nums == [0, 0, 0, 0, 0, 0, 0]
    {
      hide Ones, Shl, Test;
      MaskValues();
      if Test(hasBits, 248) {
        nums := [0, 0, 0, 0, 0] + nums[5..];
      } else {
        GuardOff(hasBits, 248, 5, 3);
        assert 3 !in hasBits && 4 !in hasBits && 5 !in hasBits && 6 !in hasBits && 7 !in hasBits;
      }
      if Test(hasBits, 768) {
        nums := nums[..5] + [0, 0];
      } else {
        GuardOff(hasBits, 768, 2, 8);
        assert 8 !in hasBits && 9 !in hasBits;
      }
    }

    /** Clear skips members by the guards, and yet leaves the object as new. */
    method Clear()
      requires Valid()
      modifies this`hasBits, this`strs, this`content, this`below, this`leaves, this`nums, this`unknown
      modifies below`hasBits, below`parts, below`contents, below`unknown, leaves`val
      ensures Valid() && IsFresh(Shape(), Snap()) && Value() == Empty(S.MsgP2pRecv)
      ensures below == old(below) && leaves == old(leaves)
    {
      hide Shape, Invariant, MessageOf, Linked, IsFresh;
      ClearStart(Snap());
      ClearPointers();
      ClearNumbers();
      hasBits := {};
      unknown := [];
      ClearEnd(Snap());
    }

    // ---------------------------------------------------------- MergeFrom

    method MergeString(from: MsgP2pRecv, k: nat, ghost h0: word, ghost ss0: seq<bytes>)
      requires from != this && k < |from.strs|
      requires MergedUpto(hasBits, strs, h0, ss0, from.hasBits, from.strs, k)
      modifies this`hasBits, this`strs
      ensures |strs| == |from.strs| && MergedUpto(hasBits, strs, h0, ss0, from.hasBits, from.strs, k + 1)
    {
      if k in from.hasBits {
        hasBits := hasBits + {k};
        strs := strs[k := from.strs[k]];
      }
    }

    method MergeStrings(from: MsgP2pRecv, ghost h0: word, ghost ss0: seq<bytes>)
      requires from != this && |from.strs| == STRINGS
      requires MergedUpto(hasBits, strs, h0, ss0, from.hasBits, from.strs, 0)
      modifies this`hasBits, this`strs
      ensures |strs| == STRINGS && MergedUpto(hasBits, strs, h0, ss0, from.hasBits, from.strs, 2)
    {
      hide MergedUpto;
      MergeString(from, SEND_NICKNAME, h0, ss0);
      MergeString(from, SEND_AVATAR, h0, ss0);
    }

    method MergeNumber(from: MsgP2pRecv, k: nat, ghost ns0: seq<int>)
      requires from != this && BASE <= k < BASE + |from.nums|
      requires NumbersUpto(BASE, nums, ns0, from.hasBits, from.nums, k)
      modifies this`nums
      ensures NumbersUpto(BASE, nums, ns0, from.hasBits, from.nums, k + 1)
    {
      if k in from.hasBits {
        nums := nums[k - BASE := from.nums[k - BASE]];
      }
    }

    /** mutable_msg()->MergeFrom(from.msg()) */
    method MergeMsg(from: MsgP2pRecv)
      requires Linked() && from.Linked() && from.msg != null && Apart(from)
      modifies this`hasBits, this`msg, this`content, this`below, this`leaves
      modifies below`hasBits, below`parts, below`contents, below`unknown, leaves`val
      ensures Linked() && from.Linked() && Apart(from) && fresh(below - old(below)) && fresh(leaves - old(leaves))
      ensures hasBits == old(hasBits) + {MSG}
      ensures content == MergedSub(S.MsgContent, old(content), true, from.content)
    {
      hide C.MsgContent.Valid, C.MsgContent.Value, Merge;
      var p := EnsureMsg();
      p.MergeFrom(from.msg);
      Relink();
    }

    /** The strings and the nested message. */
    method MergePointers(from: MsgP2pRecv)
      requires Valid() && from.Valid() && Apart(from)
      modifies this`hasBits, this`strs, this`msg, this`content, this`below, this`leaves
      modifies below`hasBits, below`parts, below`contents, below`unknown, leaves`val
      ensures Linked() && from.Linked() && Apart(from)
      ensures fresh(below - old(below)) && fresh(leaves - old(leaves))
      ensures MergedUpto(hasBits, strs, old(hasBits), old(strs), from.hasBits, from.strs, 3)
      ensures SubsUpto(Shape(), Snap().subs, old(Snap()).subs, from.hasBits, from.Snap().subs, 3)
    {
      hide Shape, Sound, Merge, Linked, C.MsgContent.Valid, C.MsgContent.Value, MergedSub, Invariant, MessageOf;
      hide MergedUpto, SubsUpto;
      ghost var h0, ss0, st := hasBits, strs, Snap();
      Bounds(Shape(), Snap());
      Bounds(Shape(), from.Snap());
      MergeStart(Shape(), Snap(), from.Snap());
      MergeStrings(from, h0, ss0);
      from.Reach();
      MarkNested(hasBits, strs, h0, ss0, from.hasBits, from.strs, MSG);
      if MSG in from.hasBits {
        MergeMsg(from);
      }
      SubMerged(st, from.Snap(), Snap().subs);
    }

    /** The group guarded by 255, up to the OR of the has-bits. */
    method MergeFirstGroup(from: MsgP2pRecv)
      requires Valid() && from.Valid() && Apart(from)
      modifies this`hasBits, this`strs, this`msg, this`content, this`below, this`leaves, this`nums
      modifies below`hasBits, below`parts, below`contents, below`unknown, leaves`val
      ensures Linked() && from.Linked() && Apart(from)
      ensures fresh(below - old(below)) && fresh(leaves - old(leaves))
      ensures MergedUpto(hasBits, strs, old(hasBits), old(strs), from.hasBits, from.strs, 3)
      ensures NumbersUpto(BASE, nums, old(nums), from.hasBits, from.nums, 8)
      ensures SubsUpto(Shape(), Snap().subs, old(Snap()).subs, from.hasBits, from.Snap().subs, 3)
    {
      hide Shape, Sound, Invariant, ValueOf, Linked, MergedUpto, NumbersUpto, SubsUpto, Merge;
      Bounds(Shape(), from.Snap());
      MergeStart(Shape(), Snap(), from.Snap());
      MergePointers(from);
      MergeFirstNumbers(from, nums);
    }

    method MergeFirstNumbers(from: MsgP2pRecv, ghost ns0: seq<int>)
      requires from != this && |from.nums| == 7 && NumbersUpto(BASE, nums, ns0, from.hasBits, from.nums, BASE)
      modifies this`nums
      ensures NumbersUpto(BASE, nums, ns0, from.hasBits, from.nums, 8)
    {
      hide NumbersUpto;
      MergeNumber(from, SEND_ID, ns0);
      MergeNumber(from, USER_TYPE, ns0);
      MergeNumber(from, MSG_ID, ns0);
      MergeNumber(from, SEND_TIME, ns0);
      MergeNumber(from, MSG_TYPE, ns0);
    }

    /** The first group behind its guard; `h` is the has-bits word before the OR. */
    method MergeFirst(from: MsgP2pRecv) returns (ghost h: word)
      requires Valid() && from.Valid() && Apart(from)
      modifies this`hasBits, this`strs, this`msg, this`content, this`below, this`leaves, this`nums
      modifies below`hasBits, below`parts, below`contents, below`unknown, leaves`val
      ensures Linked() && from.Linked() && Apart(from)
      ensures fresh(below - old(below)) && fresh(leaves - old(leaves))
      ensures hasBits == if Test(from.hasBits, 255) then old(hasBits) + from.hasBits else old(hasBits)
      ensures MergedUpto(h, strs, old(hasBits), old(strs), from.hasBits, from.strs, 3)
      ensures NumbersUpto(BASE, nums, old(nums), from.hasBits, from.nums, 8)
      ensures SubsUpto(Shape(), Snap().subs, old(Snap()).subs, from.hasBits, from.Snap().subs, 3)
    {
      hide Shape, Ones, Shl, Test, Sound, Invariant, ValueOf, Linked, MergedUpto, NumbersUpto, SubsUpto, Merge;
      ghost var h0, ss0, ns0, ps0 := hasBits, strs, nums, Snap().subs;
      Bounds(Shape(), from.Snap());
      MergeStart(Shape(), Snap(), from.Snap());
      MaskValues();
      h := h0;
      if Test(from.hasBits, 255) {
        MergeFirstGroup(from);
        MergeBits(hasBits, strs, h0, ss0, from.hasBits, from.strs, 3);
        h := hasBits;
        hasBits := hasBits + from.hasBits;
      } else {
        GuardOff(from.hasBits, 255, 8, 0);
        SkipStrings(hasBits, strs, h0, ss0, from.hasBits, from.strs, 0, 3);
        SkipSubs(Shape(), ps0, ps0, from.hasBits, from.Snap().subs, 2, 3);
        SkipNumbers(BASE, nums, ns0, from.hasBits, from.nums, BASE, 8);
      }
    }

    /** The group guarded by 768. */
    method MergeSecond(from: MsgP2pRecv, ghost h0: word, ghost ns0: seq<int>)
      requires from != this && Invariant(Shape(), from.Snap())
      requires hasBits == if Test(from.hasBits, 255) then h0 + from.hasBits else h0
      requires NumbersUpto(BASE, nums, ns0, from.hasBits, from.nums, 8)
      modifies this`hasBits, this`nums
      ensures hasBits == h0 + from.hasBits && NumbersUpto(BASE, nums, ns0, from.hasBits, from.nums, BITS)
    {
      hide Shape, Ones, Shl, Test, Sound, Invariant, NumbersUpto;
      Bounds(Shape(), from.Snap());
      MaskValues();
      if Test(from.hasBits, 768) {
        MergeNumber(from, RECEIVER_TYPE, ns0);
        MergeNumber(from, RECEIVER_ID, ns0);
        hasBits := hasBits + from.hasBits;
      } else {
        GuardOff(from.hasBits, 768, 2, 8);
        SkipNumbers(BASE, nums, ns0, from.hasBits, from.nums, 8, BITS);
        if !Test(from.hasBits, 255) {
          GuardOff(from.hasBits, 255, 8, 0);
          NoBits(Shape(), from.Snap());
        }
      }
    }

    /** MergeFrom: a nested message is merged into, not replaced. */
    method MergeFrom(from: MsgP2pRecv)
      requires Valid() && from.Valid() && Apart(from)
      modifies this`hasBits, this`strs, this`msg, this`content, this`below, this`leaves, this`nums, this`unknown
      modifies below`hasBits, below`parts, below`contents, below`unknown, leaves`val
      ensures Valid() && from.Valid() && Apart(from)
      ensures fresh(below - old(below)) && fresh(leaves - old(leaves))
      ensures Value() == Merge(old(Value()), from.Value()) && hasBits == old(hasBits) + from.hasBits
    {
      hide Shape, Invariant, MessageOf, Linked, MergedUpto, NumbersUpto, SubsUpto, Merge;
      UnknownFree(Shape(), Snap(), unknown + from.unknown);
      unknown := unknown + from.unknown;
      ghost var h := MergeFirst(from);
      MergeSecond(from, old(hasBits), old(nums));
      MergedMessage(old(Snap()), from.Snap(), Snap(), h);
    }

    /** CopyFrom: whatever the target held, a kept nested object included, it ends up equal to the source. */
    method CopyFrom(from: MsgP2pRecv)
      requires Valid() && from.Valid() && (from == this || Apart(from))
      modifies this`hasBits, this`strs, this`msg, this`content, this`below, this`leaves, this`nums, this`unknown
      modifies below`hasBits, below`parts, below`contents, below`unknown, leaves`val
      ensures Valid() && Value() == old(from.Value())
      ensures from != this ==> from.Valid() && Apart(from)
      ensures fresh(below - old(below)) && fresh(leaves - old(leaves))
    {
      hide Shape, Invariant, ValueOf, Linked, IsFresh, Merge;
      if from == this {
        return;
      }
      ghost var source := from.Snap();
      Clear();
      Bounds(Shape(), source);
      MergeFrom(from);
      ValueConforms(Shape(), source);
      MergeLeftIdentity(S.MsgP2pRecv, ValueOf(Shape(), source));
    }

    /** IsInitialized: the six required bits, and then the nested message's own check. */
    method IsInitialized() returns (r: bool)
      requires Valid()
      ensures r <==> Initialized(S.MsgP2pRecv, Value())
    {
      hide Shape, Ones, Shl, TestAll, Sound, Invariant, ValueOf, Initialized, Linked, C.MsgContent.Valid;
      hide C.MsgContent.Value;
      Reach();
      Bounds(Shape(), Snap());
      MaskValues();
      AllSet(hasBits, 252, 6, 2);
      RequiredBits(Snap());
      if !TestAll(hasBits, 252) {
        return false;
      }
      assert MSG in hasBits;
      r := msg.IsInitialized();
    }

    // ------------------------------------------------------------- parsing

    /** A number case of the switch: the has-bit is set before the number is read, and the readers of
        unsigned numbers store whatever they get. */
    method ReadNumber(input: CodedInputStream, k: nat, ghost depth: nat, ghost cur: Value) returns (ok: bool)
      requires Valid() && input.Valid() && BASE <= k < BITS
      modifies this`hasBits, this`nums, input`pos
      ensures Valid() && input.Valid()
      ensures var i := Shape().fieldOf[k];
              && Value() == Put(old(Value()), i, Value().slots[i])
              && ReadValue(KindOf(Shape(), k), depth, cur, 0, old(input.Rest()))
                 == (if ok then Got(Value().slots[i], input.Rest()) else Bad)
              && (!ok ==> LeavesValue(KindOf(Shape(), k), depth, old(Value()).slots[i], 0, old(input.Rest()),
                                      Value().slots[i]))
    {
      hide Shape, ReadValue, ValueOf, Invariant, Sound, Linked;
      Bounds(Shape(), Snap());
      MarkOnly(Shape(), Snap(), k);
      hasBits := hasBits + {k};
      var v;
      ok, v := input.ReadPrimitive(KindOf(Shape(), k).w, depth, cur);
      if ok || KindOf(Shape(), k).w != I32 {
        StoreNumber(Shape(), old(Snap()), k, v);
        nums := nums[k - BASE := v];
      }
    }

    /** A string case: mutable_ sets the has-bit, then the bytes are read into it. */
    method ReadString(input: CodedInputStream, k: nat, ghost depth: nat, ghost cur: Value) returns (ok: bool)
      requires Valid() && input.Valid() && k < STRINGS
      modifies this`hasBits, this`strs, input`pos
      ensures Valid() && input.Valid()
      ensures var i := Shape().fieldOf[k];
              && Value() == Put(old(Value()), i, Value().slots[i])
              && ReadValue(KindOf(Shape(), k), depth, cur, 2, old(input.Rest()))
                 == (if ok then Got(Value().slots[i], input.Rest()) else Bad)
              && (!ok ==> Value().slots[i].Raw?)
    {
      hide Shape, ValueOf, Invariant, Sound, Linked;
      Bounds(Shape(), Snap());
      MarkOnly(Shape(), Snap(), k);
      hasBits := hasBits + {k};
      var b;
      ok, b := input.ReadBytes();
      if ok {
        StoreString(Shape(), old(Snap()), k, b);
        strs := strs[k := b];
      }
    }

    /** The nested case: mutable_msg, then ReadMessage on top of what it holds. */
    method ReadMsg(input: CodedInputStream) returns (ok: bool)
      requires Valid() && input.Valid() && 0 <= input.budget
      modifies this`hasBits, this`msg, this`content, this`below, this`leaves
      modifies input`pos, input`limit, input`budget, input`legitimateEnd
      modifies below`hasBits, below`parts, below`contents, below`unknown, leaves`val
      ensures Valid() && input.Valid()
      ensures fresh(below - old(below)) && fresh(leaves - old(leaves))
      ensures ok ==> input.limit == old(input.limit) && input.budget == old(input.budget)
      ensures |old(Value()).slots| == |Value().slots| == BITS
      ensures Value() == Put(old(Value()), MSG_FIELD, Value().slots[MSG_FIELD])
      ensures ReadValue(Message(S.MsgContent), old(input.budget), old(Value()).slots[MSG_FIELD], 2, old(input.Rest()))
              == if ok then Got(Value().slots[MSG_FIELD], input.Rest()) else Bad
      ensures LeavesValue(Message(S.MsgContent), old(input.budget), old(Value()).slots[MSG_FIELD], 2, old(input.Rest()),
                          Value().slots[MSG_FIELD])
    {
      hide Shape, Invariant, MessageOf, Linked, C.MsgContent.Valid, C.MsgContent.Value, Existing, Content;
      hide ReadNested, LeavesNested;
      ghost var before := Snap();
      Held();
      Footprint();
      var p := EnsureMsg();
      ok := C.ReadMsgContent(input, p);
      Settle(before);
    }

    /** The cases of the switch. */
    method ReadKnown(input: CodedInputStream, i: nat) returns (ok: bool)
      requires Valid() && input.Valid() && 0 <= input.budget && i < BITS
      modifies this`hasBits, this`strs, this`msg, this`content, this`below, this`leaves, this`nums
      modifies below`hasBits, below`parts, below`contents, below`unknown, leaves`val
      modifies input`pos, input`limit, input`budget, input`legitimateEnd
      ensures Valid() && input.Valid()
      ensures fresh(below - old(below)) && fresh(leaves - old(leaves))
      ensures ok ==> input.limit == old(input.limit) && input.budget == old(input.budget)
      ensures |old(Value()).slots| == |Value().slots| == BITS && Value() == Put(old(Value()), i, Value().slots[i])
      ensures var kind := S.MsgP2pRecv.fields[i].kind;
              && ReadValue(kind, old(input.budget), old(Value()).slots[i], WireType(kind), old(input.Rest()))
                 == (if ok then Got(Value().slots[i], input.Rest()) else Bad)
              && (!ok ==> LeavesValue(kind, old(input.budget), old(Value()).slots[i], WireType(kind), old(input.Rest()),
                                      Value().slots[i]))
    {
      hide Shape, Sound, Invariant, Linked, ReadValue, ValueOf, LeavesNested;
      SlotCount(Shape(), Snap());
      Bounds(Shape(), Snap());
      FieldMatches(i);
      var k := Shape().bitOf[i];
      FieldOfBit(Shape(), i);
      if k < STRINGS {
        ok := ReadString(input, k, input.budget, old(Value()).slots[i]);
      } else if k == MSG {
        ok := ReadMsg(input);
      } else {
        ok := ReadNumber(input, k, input.budget, old(Value()).slots[i]);
      }
    }

    /** The switch: a field number within the class whose low tag byte matches is read, the rest is skipped. */
    method ReadField(input: CodedInputStream, tag: nat) returns (ok: bool)
      requires Valid() && input.Valid() && 0 <= input.budget && 1 <= tag < TWO_32
      modifies this`hasBits, this`strs, this`msg, this`content, this`below, this`leaves, this`nums, this`unknown
      modifies below`hasBits, below`parts, below`contents, below`unknown, leaves`val
      modifies input`pos, input`limit, input`budget, input`legitimateEnd
      ensures Valid() && input.Valid()
      ensures fresh(below - old(below)) && fresh(leaves - old(leaves))
      ensures ok ==> input.limit == old(input.limit) && input.budget == old(input.budget)
      ensures Message.ReadField(S.MsgP2pRecv, old(input.budget), old(Value()), tag, old(input.Rest()))
              == if ok then Got(Value(), input.Rest()) else Bad
      ensures !ok ==> LeavesField(S.MsgP2pRecv, old(input.budget), old(Value()), tag, old(input.Rest()), Value())
    {
      hide Shape, Knows, Sound, Invariant, Linked, ReadValue, SkipField, Find, ValueOf;
      TagKnown(Shape(), tag);
      SlotCount(Shape(), Snap());
      Bounds(Shape(), Snap());
      if CaseMatches(Shape(), tag) {
        ok := ReadKnown(input, tag / 8 - 1);
      } else {
        var p;
        ok, p := input.SkipUnknown(tag);
        if ok {
          StoreUnknown(Shape(), Snap(), Record(tag / 8, p));
          unknown := unknown + [Record(tag / 8, p)];
        }
      }
    }

    /** MergePartialFromCodedStream, for every input and every prior content of the object. */
    method MergePartialFromCodedStream(input: CodedInputStream) returns (ok: bool)
      requires Valid() && input.Valid() && 0 <= input.budget
      modifies this`hasBits, this`strs, this`msg, this`content, this`below, this`leaves, this`nums, this`unknown
      modifies below`hasBits, below`parts, below`contents, below`unknown, leaves`val
      modifies input`pos, input`limit, input`budget, input`legitimateEnd
      ensures Valid() && input.Valid()
      ensures fresh(below - old(below)) && fresh(leaves - old(leaves))
      ensures ok ==> input.limit == old(input.limit) && input.budget == old(input.budget)
      ensures match Parse(S.MsgP2pRecv, old(input.budget), old(Value()), old(input.Rest()))
              case Complete(m) => ok && Value() == m && input.Rest() == [] && input.legitimateEnd
              case Stopped(m) => ok && Value() == m && !input.legitimateEnd
              case Failed => !ok
      ensures Leaves(S.MsgP2pRecv, old(input.budget), old(Value()), old(input.Rest()), Value())
    {
      hide Valid, Value, Follows, Parse, Leaves, LeavesField, Message.ReadField;
      ghost var m0, bs0 := Value(), input.Rest();
      FollowsStart(S.MsgP2pRecv, input.budget, m0, bs0);
      while true
        invariant Valid() && input.Valid()
        invariant fresh(below - old(below)) && fresh(leaves - old(leaves))
        invariant input.limit == old(input.limit) && input.budget == old(input.budget)
        invariant Follows(S.MsgP2pRecv, input.budget, m0, bs0, Value(), input.Rest())
        decreases |input.Rest()|
      {
        Turn(S.MsgP2pRecv, input.budget, m0, bs0, Value(), input.Rest());
        var tag := input.ReadTag();
        if tag == 0 {
          return true;
        }
        ok := ReadField(input, tag);
        if !ok {
          return false;
        }
      }
    }

    // ---------------------------------------------------------------- size

    /** The cached size is the length of the encoding. */
    ghost predicate CacheExact()
      reads this`hasBits, this`strs, this`content, this`nums, this`unknown, this`cachedSize
    {
      cachedSize == |Serialize(S.MsgP2pRecv, Value())| < TWO_31
    }

    /** The nested message's cached size is its encoded length, and so are those of its parts. */
    ghost predicate CachesExact()
      requires Linked()
      reads this`hasBits, this`msg, this`content, this`below, this`leaves
      reads below`hasBits, below`parts, below`contents, below`unknown, leaves`val, below`cachedSize, leaves`cachedSize
    {
      MSG in hasBits && msg != null ==> msg.CacheExact() && msg.CachesExact()
    }

    /** What the members from has-bit `lo` up to `hi` count for. */
    ghost function Bytes(lo: nat, hi: nat): (n: nat)
      requires Invariant(Shape(), Snap()) && lo <= hi <= BITS
      reads this`hasBits, this`strs, this`content, this`nums, this`unknown
    {
      LenSum(Shape(), Snap(), lo, hi)
    }

    /** if (has_x()) total_size += 1 + BytesSize(x) */
    method AddString(k: nat, total: nat, ghost lo: nat) returns (r: nat)
      requires Invariant(Shape(), Snap()) && lo <= k < STRINGS && total == Bytes(lo, k)
      ensures r == Bytes(lo, k + 1)
    {
      hide Shape, Sound;
      StringLen(Shape(), Snap(), k);
      r := if Has(k) then total + 1 + DelimitedSize(|strs[k]|) else total;
    }

    /** if (has_x()) total_size += 1 + UInt32Size(x) or UInt64Size(x) */
    method AddNumber(k: nat, total: nat, ghost lo: nat) returns (r: nat)
      requires Invariant(Shape(), Snap()) && BASE <= k < BITS && lo <= k && total == Bytes(lo, k)
      ensures r == Bytes(lo, k + 1)
    {
      hide Shape, Sound;
      NumberLen(Shape(), Snap(), k);
      r := if Has(k) then total + 1 + NumberSize(KindOf(Shape(), k).w, nums[k - BASE]) else total;
    }

    /** The nested caches are what ByteSizeLong leaves. */
    ghost predicate CachesFilled()
      requires Linked()
      reads this`hasBits, this`msg, this`content, this`below, this`leaves
      reads below`hasBits, below`parts, below`contents, below`unknown, leaves`val, below`cachedSize, leaves`cachedSize
    {
      MSG in hasBits && msg != null ==> msg.CacheFilled() && msg.CachesFilled()
    }

    /** The cached size is what ByteSizeLong leaves. */
    ghost predicate CacheFilled()
      reads this`hasBits, this`strs, this`content, this`nums, this`unknown, this`cachedSize
    {
      cachedSize == ToCachedSize(ByteSize(S.MsgP2pRecv, Value()))
    }

    /** if (has_msg()) total_size += 1 + MessageSize(*msg_), which also fills the nested caches. */
    method AddMsg() returns (r: nat)
      requires Valid()
      modifies below`cachedSize, leaves`cachedSize
      ensures Valid() && r == Bytes(MSG, MSG + 1) && CachesFilled()
    {
      hide Shape, Sound, Invariant, C.MsgContent.Valid, C.MsgContent.Value, C.MsgContent.CachesFilled;
      hide C.MsgContent.CachesExact, Serialize, Emit, ByteSize, Len, DelimitedSize;
      Reach();
      Bounds(Shape(), Snap());
      NestedLen(Shape(), Snap(), MSG);
      LenSumOne(Shape(), Snap(), MSG);
      r := 0;
      if Has(MSG) {
        var n := msg.ByteSizeLong();
        r := 1 + DelimitedSize(n);
      }
    }

    /** The required numbers, each behind a test of its has-bit. */
    method GuardedNumbers(start: nat) returns (total: nat)
      requires Invariant(Shape(), Snap()) && start == Bytes(2, 3)
      ensures total == Bytes(2, 8)
    {
      hide Invariant, LenSum, Shape, Sound;
      total := AddNumber(SEND_ID, start, 2);
      total := AddNumber(USER_TYPE, total, 2);
      total := AddNumber(MSG_ID, total, 2);
      total := AddNumber(SEND_TIME, total, 2);
      total := AddNumber(MSG_TYPE, total, 2);
    }

    /** The slow path when a required field is missing. */
    method RequiredFieldsByteSizeFallback() returns (total: nat)
      requires Valid()
      modifies below`cachedSize, leaves`cachedSize
      ensures Valid() && total == Bytes(2, 8) && CachesFilled()
    {
      hide Invariant, LenSum, Shape, Linked, CachesFilled;
      total := AddMsg();
      total := GuardedNumbers(total);
    }

    /** total_size += 1 + UInt32Size(x) without a test of the has-bit. */
    method AddPresent(k: nat, total: nat, ghost lo: nat) returns (r: nat)
      requires Invariant(Shape(), Snap()) && BASE <= k < BITS && lo <= k && k in hasBits && total == Bytes(lo, k)
      ensures r == Bytes(lo, k + 1)
    {
      hide Shape, Sound;
      NumberLen(Shape(), Snap(), k);
      r := total + 1 + NumberSize(KindOf(Shape(), k).w, nums[k - BASE]);
    }

    /** The required numbers when all are present: no test per field. */
    method PresentNumbers(start: nat) returns (total: nat)
      requires Invariant(Shape(), Snap()) && start == Bytes(2, 3) && forall k | 3 <= k < 8 :: k in hasBits
      ensures total == Bytes(2, 8)
    {
      hide Invariant, LenSum, Shape, Sound;
      total := AddPresent(SEND_ID, start, 2);
      total := AddPresent(USER_TYPE, total, 2);
      total := AddPresent(MSG_ID, total, 2);
      total := AddPresent(SEND_TIME, total, 2);
      total := AddPresent(MSG_TYPE, total, 2);
    }

    /** The required fields, by the fast path when all six are present. */
    method RequiredSize() returns (total: nat)
      requires Valid()
      modifies below`cachedSize, leaves`cachedSize
      ensures Valid() && total == Bytes(2, 8) && CachesFilled()
    {
      hide Ones, Shl, TestAll, Invariant, LenSum, Shape, Linked, CachesFilled;
      MaskValues();
      AllSet(hasBits, 252, 6, 2);
      if TestAll(hasBits, 252) {
        total := AddMsg();
        total := PresentNumbers(total);
      } else {
        total := RequiredFieldsByteSizeFallback();
      }
    }

    /** The groups guarded by 3 and by 768. */
    method OptionalSize() returns (total: nat)
      requires Invariant(Shape(), Snap())
      ensures total == Bytes(0, 2) + Bytes(8, 10)
    {
      hide Shape, Ones, Shl, Test, Sound, LenSum;
      MaskValues();
      GuardOff(hasBits, 3, 2, 0);
      GuardOff(hasBits, 768, 2, 8);
      LenSumClear(Shape(), Snap(), 0, 0);
      LenSumClear(Shape(), Snap(), 8, 8);
      var strings, numbers := 0, 0;
      if Test(hasBits, 3) {
        strings := AddString(SEND_NICKNAME, strings, 0);
        strings := AddString(SEND_AVATAR, strings, 0);
      } else {
        LenSumClear(Shape(), Snap(), 0, 2);
      }
      if Test(hasBits, 768) {
        numbers := AddNumber(RECEIVER_TYPE, numbers, 8);
        numbers := AddNumber(RECEIVER_ID, numbers, 8);
      } else {
        LenSumClear(Shape(), Snap(), 8, 10);
      }
      total := strings + numbers;
    }

    /** ByteSizeLong: the size of the message, and on the way every cached size below this object. */
    method ByteSizeLong() returns (total: nat)
      requires Valid()
      modifies this`cachedSize, below`cachedSize, leaves`cachedSize
      ensures Valid() && total == ByteSize(S.MsgP2pRecv, Value()) == |Emit(S.MsgP2pRecv, Value())|
      ensures CacheFilled() && CachesFilled()
      ensures total < TWO_31 ==> CacheExact() && CachesExact()
    {
      hide Shape, Invariant, MessageOf, Linked, CachesFilled, CachesExact, LenSum, Serialize, Emit, ByteSize;
      hide EncodeRecords;
      EmitLength(S.MsgP2pRecv, Value());
      SizeParts(Snap());
      NoneWritten(1, S.MsgP2pRecv);
      total := 0;
      if unknown != [] {
        total := total + |EncodeRecords(unknown)|;
      }
      var required := RequiredSize();
      var optional := OptionalSize();
      total := total + required + optional;
      cachedSize := ToCachedSize(total);
      if total < TWO_31 {
        SmallIsExact(S.MsgP2pRecv, Value());
        SmallCaches();
      }
    }

    /** Filled caches are exact when the whole message is under 2^31 bytes. */
    lemma SmallCaches()
      requires Valid() && CachesFilled() && ByteSize(S.MsgP2pRecv, Value()) < TWO_31
      ensures CachesExact()
    {
      hide Shape, Invariant, MessageOf, Linked, ByteSize, Serialize, C.MsgContent.Valid, C.MsgContent.Value;
      hide C.MsgContent.CachesFilled, C.MsgContent.CachesExact;
      Reach();
      NestedSize(Snap());
      if MSG in hasBits {
        SmallIsExact(S.MsgContent, msg.Value());
        msg.SmallCaches();
      }
    }

    // --------------------------------------------------------- serializing

    /** Writes the field with index `i` if its has-bit is set, the nested one behind its cached size. */
    method WriteField(i: nat, out: bytes, ghost goal: bytes) returns (r: bytes)
      requires Valid() && CachesFilled() && i < BITS && Written(Shape(), out, Value(), i, goal)
      ensures Valid() && CachesFilled() && Written(Shape(), r, Value(), i + 1, goal)
    {
      hide Shape, Sound, Invariant, ValueOf, Linked, Written, FieldBytes, Emit, ByteSize, C.MsgContent.Valid;
      hide C.MsgContent.Value, C.MsgContent.CachesFilled, EmitDelimited, EncodeTag;
      Reach();
      Bounds(Shape(), Snap());
      FieldBytesForm(Shape(), Snap(), i);
      var k := Shape().bitOf[i];
      r := out;
      if k in hasBits {
        if k < STRINGS {
          r := r + (EncodeTag(i + 1, 2) + EmitDelimited(strs[k]));
        } else if k == MSG {
          r := C.WriteMsgContent(i + 1, msg, r);
        } else {
          r := r + (EncodeTag(i + 1, 0) + EncodeVarint(ToWire(nums[k - BASE])));
        }
      }
      WroteField(Shape(), Snap(), i, out, r, goal);
    }

    /** SerializeWithCachedSizes: from filled caches it writes what ByteSizeLong has counted. */
    method SerializeWithCachedSizes(out: bytes) returns (r: bytes)
      requires Valid() && CachesFilled()
      ensures r == out + Emit(S.MsgP2pRecv, Value())
    {
      hide Shape, Written, Invariant, ValueOf, Linked, Emit, CachesFilled;
      ghost var goal := out + Emit(S.MsgP2pRecv, Value());
      WroteNothing(Shape(), out, Value(), goal);
      r := out;
      r := WriteField(0, r, goal);  // send_id
      r := WriteField(1, r, goal);  // user_type
      r := WriteField(2, r, goal);  // msg_id
      r := WriteField(3, r, goal);  // send_time
      r := WriteField(4, r, goal);  // send_nickname
      r := WriteField(5, r, goal);  // send_avatar
      r := WriteField(6, r, goal);  // msg_type
      r := WriteField(7, r, goal);  // msg
      r := WriteField(8, r, goal);  // receiver_type
      r := WriteField(9, r, goal);  // receiver_id
      Bounds(Shape(), Snap());
      WroteAll(Shape(), Snap(), r, goal);
      if unknown != [] {
        r := r + EncodeRecords(unknown);
      }
    }
  }

  /** ReadMessage for a msg_p2p_recv: the length, a recursion step, the parse, and the check at the limit. */
  method ReadP2pRecv(input: CodedInputStream, value: MsgP2pRecv) returns (ok: bool)
    requires value.Valid() && input.Valid() && 0 <= input.budget
    modifies value`hasBits, value`strs, value`msg, value`content, value`below, value`leaves, value`nums, value`unknown
    modifies value.below`hasBits, value.below`parts, value.below`contents, value.below`unknown, value.leaves`val
    modifies input`pos, input`limit, input`budget, input`legitimateEnd
    ensures value.Valid() && input.Valid()
    ensures fresh(value.below - old(value.below)) && fresh(value.leaves - old(value.leaves))
    ensures ok ==> input.limit == old(input.limit) && input.budget == old(input.budget)
    ensures ReadNested(S.MsgP2pRecv, old(input.budget), old(value.Value()), old(input.Rest()))
            == if ok then Got(value.Value(), input.Rest()) else Bad
    ensures LeavesNested(S.MsgP2pRecv, old(input.budget), old(value.Value()), old(input.Rest()), value.Value())
  {
    hide MsgP2pRecv.Valid, MsgP2pRecv.Value, Parse, Leaves, ReadSize;
    var begun, enclosing := input.OpenMessage();
    if !begun {
      return false;
    }
    ok := value.MergePartialFromCodedStream(input);
    if !ok {
      return false;
    }
    ok := input.DecrementRecursionDepthAndPopLimit(enclosing);
  }
}

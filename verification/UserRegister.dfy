/** user_register: ten strings and five numbers behind one has-bits word, a signed number among them. */
module UserRegisterClass {
  import opened Wire
  import opened Unknown
  import opened Message
  import opened HasBits
  import opened Failing
  import opened Members
  import opened MergeLaws
  import opened Sizing
  import opened Streams
  import opened Writing
  import S = Schemas
  import P = Presence

  // The has-bit of each member.
  const GUID: nat := 0
  const NICKNAME: nat := 1
  const AVATAR: nat := 2
  const MOBILE: nat := 3
  const INTRODUCTION: nat := 4
  const COMPANY: nat := 5
  const OCCUPATION: nat := 6
  const INDUSTRY: nat := 7
  const AREA: nat := 8
  const PASSWORD: nat := 9
  const USER_TYPE: nat := 10
  const GENDER: nat := 11
  const ADD_IDENTITY: nat := 12
  const DEL_IDENTITY: nat := 13
  const IMID: nat := 14
  const STRINGS: nat := 10
  const BITS: nat := 15

  const BIT_OF: seq<nat> := [
    USER_TYPE, GUID, NICKNAME, AVATAR, MOBILE, INTRODUCTION, GENDER, ADD_IDENTITY,
    DEL_IDENTITY, COMPANY, OCCUPATION, INDUSTRY, AREA, PASSWORD, IMID]
  const FIELD_OF: seq<nat> := [1, 2, 3, 4, 5, 9, 10, 11, 12, 13, 0, 6, 7, 8, 14]
  const TAG_OF: seq<nat> := [8, 18, 26, 34, 42, 50, 56, 64, 72, 82, 90, 98, 106, 114, 120]

  lemma BitsMatch(i: nat)
    requires i < BITS
    ensures BIT_OF[i] < BITS && FIELD_OF[BIT_OF[i]] == i
    ensures FIELD_OF[i] < BITS && BIT_OF[FIELD_OF[i]] == i
  {
  }

  lemma FieldMatches(i: nat)
    requires i < BITS
    ensures S.UserRegister.fields[i].number == i + 1
    ensures TAG_OF[i] == MakeTag(i + 1, WireType(S.UserRegister.fields[i].kind))
    ensures if BIT_OF[i] < STRINGS then S.UserRegister.fields[i].kind.Bytes? else S.UserRegister.fields[i].kind.Scalar?
  {
  }

  /** The has-bits, tags and types of the class agree with its schema. */
  function Shape(): (l: Layout)
    ensures Sound(l) && l.schema == S.UserRegister
    ensures l.strings == STRINGS && l.nested == 0 && |l.bitOf| == |l.fieldOf| == |l.tagOf| == BITS
    ensures l.fieldOf[GUID] == 1 && l.fieldOf[USER_TYPE] == 0
  {
    var l := Layout(S.UserRegister, STRINGS, 0, BIT_OF, FIELD_OF, TAG_OF);
    ShapeSound(l);
    l
  }

  lemma ShapeSound(l: Layout)
    requires l == Layout(S.UserRegister, STRINGS, 0, BIT_OF, FIELD_OF, TAG_OF)
    ensures Sound(l)
  {
    forall i | 0 <= i < BITS
      ensures l.bitOf[i] < BITS && l.fieldOf[l.bitOf[i]] == i
      ensures l.tagOf[i] == MakeTag(i + 1, WireType(l.schema.fields[i].kind))
      ensures l.schema.fields[i].number == i + 1 && KindAt(l, l.bitOf[i], l.schema.fields[i].kind)
    {
      BitsMatch(i);
      FieldMatches(i);
    }
    forall k | 0 <= k < BITS ensures l.fieldOf[k] < BITS && l.bitOf[l.fieldOf[k]] == k { BitsMatch(k); }
  }

  /** The has-bit of each field in field order, and the slot that each accessor works on. */
  lemma AccessorSlots()
    ensures Shape().bitOf == [10, 0, 1, 2, 3, 4, 11, 12, 13, 5, 6, 7, 8, 9, 14]
    ensures var f := Shape().fieldOf;
            && f[GUID] == 1 && f[NICKNAME] == 2 && f[AVATAR] == 3 && f[MOBILE] == 4 && f[INTRODUCTION] == 5
            && f[COMPANY] == 9 && f[OCCUPATION] == 10 && f[INDUSTRY] == 11 && f[AREA] == 12 && f[PASSWORD] == 13
            && f[USER_TYPE] == 0 && f[GENDER] == 6 && f[ADD_IDENTITY] == 7 && f[DEL_IDENTITY] == 8 && f[IMID] == 14
  {
    hide Sound;
  }

  /** The values a number can be set to: gender is an int32, the identities are uint64, the rest uint32. */
  predicate Fits(k: nat, n: int) {
    if k == GENDER then -0x8000_0000 <= n < 0x8000_0000
    else if k == ADD_IDENTITY || k == DEL_IDENTITY then 0 <= n < 0x1_0000_0000_0000_0000
    else 0 <= n < 0x1_0000_0000
  }

  lemma FitsIff(k: nat, n: int)
    requires STRINGS <= k < BITS
    ensures Fits(k, n) <==> InRange(KindOf(Shape(), k).w, n)
  {
    var i := Shape().fieldOf[k];
    assert k == BIT_OF[i] && i in {0, 6, 7, 8, 14};
  }

  class UserRegister {
    var hasBits: word
    var strs: seq<bytes>
    var nums: seq<int>
    var unknown: seq<Record>
    var cachedSize: int

    ghost function Snap(): (st: Store)
      reads this`hasBits, this`strs, this`nums, this`unknown
    {
      Store(hasBits, strs, [], nums, unknown)
    }

    ghost predicate Valid()
      reads this`hasBits, this`strs, this`nums, this`unknown
    {
      Invariant(Shape(), Snap())
    }

    /** The message this object stands for. */
    ghost function Value(): (m: Msg)
      requires Valid()
      reads this`hasBits, this`strs, this`nums, this`unknown
    {
      ValueOf(Shape(), Snap())
    }

    constructor ()
      ensures Valid() && IsFresh(Shape(), Snap()) && Value() == Empty(S.UserRegister)
    {
      hasBits, strs, nums, unknown, cachedSize := {}, seq(STRINGS, _ => []), [0, 0, 0, 0, 0], [], 0;
      new;
      FreshInvariant(Shape(), Snap());
    }

    // ---------------------------------------------------------- accessors

    predicate Has(k: nat) reads this { k in hasBits }

    method SetString(k: nat, value: bytes)
      requires Valid() && k < STRINGS
      modifies this`hasBits, this`strs
      ensures Valid() && Value() == Put(old(Value()), Shape().fieldOf[k], Raw(value))
    {
      hide Shape, Invariant, ValueOf;
      Bounds(Shape(), Snap());
      StoreString(Shape(), Snap(), k, value);
      hasBits := hasBits + {k};
      strs := strs[k := value];
    }

    method SetNumber(k: nat, value: int)
      requires Valid() && STRINGS <= k < BITS && Fits(k, value)
      modifies this`hasBits, this`nums
      ensures Valid() && Value() == Put(old(Value()), Shape().fieldOf[k], Num(value))
    {
      hide Shape, Invariant, ValueOf;
      Bounds(Shape(), Snap());
      FitsIff(k, value);
      StoreNumber(Shape(), Snap(), k, value);
      hasBits := hasBits + {k};
      nums := nums[k - STRINGS := value];
    }

    /** mutable_: marks the string present and keeps its content. */
    method MutableString(k: nat)
      requires Valid() && k < STRINGS
      modifies this`hasBits
      ensures Valid() && hasBits == old(hasBits) + {k}
      ensures Value() == Put(old(Value()), Shape().fieldOf[k], Raw(strs[k]))
    {
      hide Shape, Invariant, ValueOf;
      Bounds(Shape(), Snap());
      StoreString(Shape(), Snap(), k, strs[k]);
      assert strs[k := strs[k]] == strs;
      hasBits := hasBits + {k};
    }

    method ClearString(k: nat)
      requires Valid() && k < STRINGS
      modifies this`hasBits, this`strs
      ensures Valid() && Value() == Put(old(Value()), Shape().fieldOf[k], Absent)
    {
      hide Shape, Invariant, ValueOf;
      Bounds(Shape(), Snap());
      strs := strs[k := []];
      hasBits := hasBits - {k};
      DropString(Shape(), old(Snap()), k);
    }

    method ClearNumber(k: nat)
      requires Valid() && STRINGS <= k < BITS
      modifies this`hasBits, this`nums
      ensures Valid() && Value() == Put(old(Value()), Shape().fieldOf[k], Absent)
    {
      hide Shape, Invariant, ValueOf;
      Bounds(Shape(), Snap());
      nums := nums[k - STRINGS := 0];
      hasBits := hasBits - {k};
      DropNumber(Shape(), old(Snap()), k);
    }

    /** release_: null when the bit is clear, otherwise the content, leaving the default behind. */
    method ReleaseString(k: nat) returns (owned: bool, value: bytes)
      requires Valid() && k < STRINGS
      modifies this`hasBits, this`strs
      ensures Valid() && old(Value()).slots[Shape().fieldOf[k]] == if owned then Raw(value) else Absent
      ensures Value() == Put(old(Value()), Shape().fieldOf[k], Absent)
    {
      hide Shape, Invariant, ValueOf;
      Bounds(Shape(), Snap());
      MemberSlot(Shape(), Snap(), k);
      if k !in hasBits {
        return false, [];
      }
      hasBits := hasBits - {k};
      value := strs[k];
      strs := strs[k := []];
      DropString(Shape(), old(Snap()), k);
      return true, value;
    }

    /** set_allocated_: a null argument clears the field. */
    method SetAllocatedString(k: nat, isNull: bool, value: bytes)
      requires Valid() && k < STRINGS
      modifies this`hasBits, this`strs
      ensures Valid() && Value() == Put(old(Value()), Shape().fieldOf[k], if isNull then Absent else Raw(value))
    {
      if isNull {
        ClearString(k);
      } else {
        SetString(k, value);
      }
    }

    // -------------------------------------------------------------- Clear

    method ClearIfSet(k: nat, ghost start: seq<bytes>)
      requires ClearedUpto(strs, start, k) && k < |strs| && (k !in hasBits ==> start[k] == [])
      modifies this`strs
      ensures ClearedUpto(strs, start, k + 1)
    {
      if k in hasBits { strs := strs[k := []]; }
    }

    /** The group guarded by 255. */
    method ClearFirstStrings(ghost start: seq<bytes>)
      requires ClearedUpto(strs, start, 0) && |strs| == |start| == STRINGS
      requires forall k | 0 <= k < 8 && k !in hasBits :: start[k] == []
      modifies this`strs
      ensures ClearedUpto(strs, start, 8) && |strs| == STRINGS
    {
      ClearIfSet(GUID, start);
      ClearIfSet(NICKNAME, start);
      ClearIfSet(AVATAR, start);
      ClearIfSet(MOBILE, start);
      ClearIfSet(INTRODUCTION, start);
      ClearIfSet(COMPANY, start);
      ClearIfSet(OCCUPATION, start);
      ClearIfSet(INDUSTRY, start);
    }

    /** Clear skips members by their has-bits, and yet leaves the object as new. */
    method Clear()
      requires Valid()
      modifies this`hasBits, this`strs, this`nums, this`unknown
      ensures Valid() && IsFresh(Shape(), Snap()) && Value() == Empty(S.UserRegister)
    {
      hide Shape, Ones, Shl, Test, Sound, ValueOf;
      ghost var start := strs;
      MaskValues();
      if Test(hasBits, 255) {
        ClearFirstStrings(start);
      } else {
        GuardOff(hasBits, 255, 8, 0);
      }
      assert ClearedUpto(strs, start, 8);
      if Test(hasBits, 768) {
        ClearIfSet(AREA, start);
        ClearIfSet(PASSWORD, start);
      } else {
        GuardOff(hasBits, 768, 2, 8);
      }
      assert ClearedUpto(strs, start, STRINGS);
      if Test(hasBits, 31744) {
        nums := [0, 0, 0, 0, 0];
      } else {
        GuardOff(hasBits, 31744, 5, 10);
        assert 10 !in hasBits && 11 !in hasBits && 12 !in hasBits && 13 !in hasBits && 14 !in hasBits;
      }
      hasBits := {};
      unknown := [];
      FreshInvariant(Shape(), Snap());
    }

    // ---------------------------------------------------------- MergeFrom

    method MergeString(from: UserRegister, k: nat, ghost h0: word, ghost ss0: seq<bytes>)
      requires from != this && k < |from.strs|
      requires MergedUpto(hasBits, strs, h0, ss0, from.hasBits, from.strs, k)
      modifies this`hasBits, this`strs
      ensures MergedUpto(hasBits, strs, h0, ss0, from.hasBits, from.strs, k + 1)
    {
      if k in from.hasBits {
        hasBits := hasBits + {k};
        strs := strs[k := from.strs[k]];
      }
    }

    method MergeNumber(from: UserRegister, k: nat, ghost ns0: seq<int>)
      requires from != this && STRINGS <= k < STRINGS + |from.nums|
      requires NumbersUpto(STRINGS, nums, ns0, from.hasBits, from.nums, k)
      modifies this`nums
      ensures NumbersUpto(STRINGS, nums, ns0, from.hasBits, from.nums, k + 1)
    {
      if k in from.hasBits {
        nums := nums[k - STRINGS := from.nums[k - STRINGS]];
      }
    }

    /** The group guarded by 255: each string sets its own has-bit. */
    method MergeFirstGroup(from: UserRegister, ghost h0: word, ghost ss0: seq<bytes>)
      requires from != this && |from.strs| == STRINGS
      requires MergedUpto(hasBits, strs, h0, ss0, from.hasBits, from.strs, 0)
      modifies this`hasBits, this`strs
      ensures MergedUpto(hasBits, strs, h0, ss0, from.hasBits, from.strs, 8)
    {
      hide MergedUpto;
      MergeString(from, GUID, h0, ss0);
      MergeString(from, NICKNAME, h0, ss0);
      MergeString(from, AVATAR, h0, ss0);
      MergeString(from, MOBILE, h0, ss0);
      MergeString(from, INTRODUCTION, h0, ss0);
      MergeString(from, COMPANY, h0, ss0);
      MergeString(from, OCCUPATION, h0, ss0);
      MergeString(from, INDUSTRY, h0, ss0);
    }

    /** The group guarded by 32512: the scalars rely on the final OR of the has-bits. */
    method MergeSecondGroup(from: UserRegister, ghost h0: word, ghost ss0: seq<bytes>, ghost ns0: seq<int>)
      requires from != this && |from.strs| == STRINGS && |from.nums| == 5
      requires MergedUpto(hasBits, strs, h0, ss0, from.hasBits, from.strs, 8)
      requires NumbersUpto(STRINGS, nums, ns0, from.hasBits, from.nums, STRINGS)
      modifies this`hasBits, this`strs, this`nums
      ensures MergedUpto(hasBits, strs, h0, ss0, from.hasBits, from.strs, STRINGS)
      ensures NumbersUpto(STRINGS, nums, ns0, from.hasBits, from.nums, BITS)
    {
      hide MergedUpto, NumbersUpto;
      MergeString(from, AREA, h0, ss0);
      MergeString(from, PASSWORD, h0, ss0);
      MergeNumber(from, USER_TYPE, ns0);
      MergeNumber(from, GENDER, ns0);
      MergeNumber(from, ADD_IDENTITY, ns0);
      MergeNumber(from, DEL_IDENTITY, ns0);
      MergeNumber(from, IMID, ns0);
    }

    /** MergeFrom: the has-bits become the union even though only the second group ORs them in. */
    method MergeFrom(from: UserRegister)
      requires Valid() && from.Valid() && from != this
      modifies this`hasBits, this`strs, this`nums, this`unknown
      ensures Valid() && Value() == Merge(old(Value()), from.Value())
      ensures hasBits == old(hasBits) + from.hasBits
    {
      hide Shape, Ones, Shl, Test, Sound, Invariant, ValueOf, MergedUpto, NumbersUpto, SubsUpto, Merge;
      ghost var h0, ss0, ns0 := hasBits, strs, nums;
      Bounds(Shape(), from.Snap());
      BitsBelow(Shape(), from.Snap());
      MergeStart(Shape(), Snap(), from.Snap());
      MaskValues();
      unknown := unknown + from.unknown;
      if Test(from.hasBits, 255) {
        MergeFirstGroup(from, h0, ss0);
      } else {
        GuardOff(from.hasBits, 255, 8, 0);
        SkipStrings(hasBits, strs, h0, ss0, from.hasBits, from.strs, 0, 8);
      }
      ghost var h := hasBits;
      if Test(from.hasBits, 32512) {
        MergeSecondGroup(from, h0, ss0, ns0);
        MergeBits(hasBits, strs, h0, ss0, from.hasBits, from.strs, STRINGS);
        h := hasBits;
        hasBits := hasBits + from.hasBits;
      } else {
        GuardOff(from.hasBits, 32512, 7, 8);
        SkipStrings(hasBits, strs, h0, ss0, from.hasBits, from.strs, 8, STRINGS);
        SkipNumbers(STRINGS, nums, ns0, from.hasBits, from.nums, STRINGS, BITS);
        MergeBits(hasBits, strs, h0, ss0, from.hasBits, from.strs, STRINGS);
        assert forall j | j in from.hasBits :: j < STRINGS;
      }
      MergeEnd(Shape(), old(Snap()), from.Snap(), Snap(), h, STRINGS);
    }

    /** CopyFrom: whatever the target held, it ends up equal to the source. */
    method CopyFrom(from: UserRegister)
      requires Valid() && from.Valid()
      modifies this`hasBits, this`strs, this`nums, this`unknown
      ensures Valid() && Value() == old(from.Value())
      ensures from != this ==> from.Value() == old(from.Value())
    {
      hide Invariant, ValueOf;
      if from == this {
        return;
      }
      Clear();
      MergeFrom(from);
      ValueConforms(Shape(), from.Snap());
      MergeLeftIdentity(S.UserRegister, from.Value());
    }

    method IsInitialized() returns (r: bool)
      requires Valid()
      ensures r <==> Initialized(S.UserRegister, Value())
    {
      hide Shape, Invariant, ValueOf, Initialized;
      SlotCount(Shape(), Snap());
      AbsentIffClear(Shape(), Snap(), GUID);
      AbsentIffClear(Shape(), Snap(), USER_TYPE);
      RequiredMask();
      r := TestAll(hasBits, 0x401);
      P.UserRegisterRequired(Value());
    }

    // ------------------------------------------------------------- parsing

    /** A number case of the switch: the has-bit is set before the number is read, and the readers of
        unsigned numbers store whatever they get. */
    method ReadNumber(input: CodedInputStream, k: nat, ghost depth: nat, ghost cur: Value) returns (ok: bool)
      requires Valid() && input.Valid() && STRINGS <= k < BITS
      modifies this`hasBits, this`nums, input`pos
      ensures Valid() && input.Valid()
      ensures var i := Shape().fieldOf[k];
              && Value() == Put(old(Value()), i, Value().slots[i])
              && ReadValue(KindOf(Shape(), k), depth, cur, 0, old(input.Rest()))
                 == (if ok then Got(Value().slots[i], input.Rest()) else Bad)
              && (!ok ==> LeavesValue(KindOf(Shape(), k), depth, old(Value()).slots[i], 0, old(input.Rest()),
                                      Value().slots[i]))
    {
      hide Shape, ReadValue, ValueOf, Invariant, Sound;
      Bounds(Shape(), Snap());
      MarkOnly(Shape(), Snap(), k);
      hasBits := hasBits + {k};
      var v;
      ok, v := input.ReadPrimitive(KindOf(Shape(), k).w, depth, cur);
      if ok || KindOf(Shape(), k).w != I32 {
        StoreNumber(Shape(), old(Snap()), k, v);
        nums := nums[k - STRINGS := v];
      }
    }

    method ReadString(input: CodedInputStream, k: nat, ghost depth: nat, ghost cur: Value) returns (ok: bool)
      requires Valid() && input.Valid() && k < STRINGS
      modifies this`hasBits, this`strs, input`pos
      ensures Valid() && input.Valid()
      ensures var i := Shape().fieldOf[k];
              && Value() == Put(old(Value()), i, Value().slots[i])
              && ReadValue(KindOf(Shape(), k), depth, cur, 2, old(input.Rest()))
                 == (if ok then Got(Value().slots[i], input.Rest()) else Bad)
              && (!ok ==> Value().slots[i].Raw?)
    {
      hide Shape, ValueOf, Invariant, Sound;
      Bounds(Shape(), Snap());
      MutableString(k);
      var b;
      ok, b := input.ReadBytes();
      if ok {
        StoreString(Shape(), old(Snap()), k, b);
        strs := strs[k := b];
      }
    }

    /** The switch: a field number within the class whose low tag byte matches is read, the rest is skipped. */
    method ReadField(input: CodedInputStream, tag: nat) returns (ok: bool)
      requires Valid() && input.Valid() && 0 <= input.budget && 1 <= tag < TWO_32
      modifies this`hasBits, this`strs, this`nums, this`unknown, input`pos
      ensures Valid() && input.Valid()
      ensures Message.ReadField(S.UserRegister, input.budget, old(Value()), tag, old(input.Rest()))
              == if ok then Got(Value(), input.Rest()) else Bad
      ensures !ok ==> LeavesField(S.UserRegister, input.budget, old(Value()), tag, old(input.Rest()), Value())
    {
      hide Shape, Knows, Sound, Invariant, ReadValue, SkipField, Find;
      TagKnown(Shape(), tag);
      SlotCount(Shape(), Snap());
      if CaseMatches(Shape(), tag) {
        var k := Shape().bitOf[tag / 8 - 1];
        FieldOfBit(Shape(), tag / 8 - 1);
        if k < STRINGS {
          ok := ReadString(input, k, input.budget, old(Value()).slots[tag / 8 - 1]);
        } else {
          ok := ReadNumber(input, k, input.budget, old(Value()).slots[tag / 8 - 1]);
        }
      } else {
        var p;
        ok, p := input.SkipUnknown(tag);
        if ok {
          StoreUnknown(Shape(), Snap(), Record(tag / 8, p));
          unknown := unknown + [Record(tag / 8, p)];
        }
      }
    }

    /** MergePartialFromCodedStream, for every input and every prior content of the object. */
    method MergePartialFromCodedStream(input: CodedInputStream) returns (ok: bool)
      requires Valid() && input.Valid() && 0 <= input.budget
      modifies this`hasBits, this`strs, this`nums, this`unknown, input`pos, input`legitimateEnd
      ensures Valid() && input.Valid()
      ensures match Parse(S.UserRegister, input.budget, old(Value()), old(input.Rest()))
              case Complete(m) => ok && Value() == m && input.Rest() == [] && input.legitimateEnd
              case Stopped(m) => ok && Value() == m && !input.legitimateEnd
              case Failed => !ok
      ensures Leaves(S.UserRegister, input.budget, old(Value()), old(input.Rest()), Value())
    {
      hide Valid, Value, Follows, Parse, Leaves, LeavesField, Message.ReadField;
      ghost var m0, bs0 := Value(), input.Rest();
      FollowsStart(S.UserRegister, input.budget, m0, bs0);
      while true
        invariant Valid() && input.Valid()
        invariant Follows(S.UserRegister, input.budget, m0, bs0, Value(), input.Rest())
        decreases |input.Rest()|
      {
        Turn(S.UserRegister, input.budget, m0, bs0, Value(), input.Rest());
        var tag := input.ReadTag();
        if tag == 0 {
          return true;
        }
        ok := ReadField(input, tag);
        if !ok {
          return false;
        }
      }
    }

    // ---------------------------------------------------------------- size

    /** What the members from has-bit `lo` up to `hi` count for. */
    ghost function Bytes(lo: nat, hi: nat): (n: nat)
      requires Valid() && lo <= hi <= BITS
      reads this`hasBits, this`strs, this`nums, this`unknown
    {
      LenSum(Shape(), Snap(), lo, hi)
    }

    /** if (has_x()) total_size += 1 + BytesSize(x) */
    method AddString(k: nat, total: nat, ghost lo: nat) returns (r: nat)
      requires Valid() && lo <= k < STRINGS && total == Bytes(lo, k)
      ensures r == Bytes(lo, k + 1)
    {
      hide Shape, Sound;
      StringLen(Shape(), Snap(), k);
      r := if Has(k) then total + 1 + DelimitedSize(|strs[k]|) else total;
    }

    /** if (has_x()) total_size += 1 + UInt32Size(x), Int32Size(x) or UInt64Size(x) */
    method AddNumber(k: nat, total: nat, ghost lo: nat) returns (r: nat)
      requires Valid() && STRINGS <= k < BITS && lo <= k && total == Bytes(lo, k)
      ensures r == Bytes(lo, k + 1)
    {
      hide Shape, Sound;
      NumberLen(Shape(), Snap(), k);
      r := if Has(k) then total + 1 + NumberSize(KindOf(Shape(), k).w, nums[k - STRINGS]) else total;
    }

    /** The slow path when a required field is missing. */
    method RequiredFieldsByteSizeFallback() returns (total: nat)
      requires Valid()
      ensures total == Bytes(GUID, GUID + 1) + Bytes(USER_TYPE, USER_TYPE + 1)
    {
      var guid := AddString(GUID, 0, GUID);
      var userType := AddNumber(USER_TYPE, 0, USER_TYPE);
      total := guid + userType;
    }

    /** Both required fields present: no test per field. */
    method RequiredSize() returns (total: nat)
      requires Valid()
      ensures total == Bytes(GUID, GUID + 1) + Bytes(USER_TYPE, USER_TYPE + 1)
    {
      hide Shape, Sound, Len;
      if TestAll(hasBits, 0x401) {
        RequiredMask();
        StringLen(Shape(), Snap(), GUID);
        LenSumOne(Shape(), Snap(), GUID);
        NumberLen(Shape(), Snap(), USER_TYPE);
        LenSumOne(Shape(), Snap(), USER_TYPE);
        total := 1 + DelimitedSize(|strs[GUID]|);
        total := total + 1 + NumberSize(KindOf(Shape(), USER_TYPE).w, nums[USER_TYPE - STRINGS]);
      } else {
        total := RequiredFieldsByteSizeFallback();
      }
    }

    /** The group guarded by 254. */
    method OptionalStringsSize() returns (total: nat)
      requires Valid()
      ensures total == Bytes(1, 8)
    {
      hide Shape, Ones, Shl, Test, Sound, LenSum;
      MaskValues();
      GuardOff(hasBits, 254, 7, 1);
      LenSumClear(Shape(), Snap(), 1, 1);
      total := 0;
      if Test(hasBits, 254) {
        total := AddString(NICKNAME, total, 1);
        total := AddString(AVATAR, total, 1);
        total := AddString(MOBILE, total, 1);
        total := AddString(INTRODUCTION, total, 1);
        total := AddString(COMPANY, total, 1);
        total := AddString(OCCUPATION, total, 1);
        total := AddString(INDUSTRY, total, 1);
      } else {
        LenSumClear(Shape(), Snap(), 1, 8);
      }
    }

    /** The group guarded by 768. */
    method LateStringsSize() returns (total: nat)
      requires Valid()
      ensures total == Bytes(8, 10)
    {
      hide Shape, Ones, Shl, Test, Sound, LenSum;
      MaskValues();
      GuardOff(hasBits, 768, 2, 8);
      LenSumClear(Shape(), Snap(), 8, 8);
      total := 0;
      if Test(hasBits, 768) {
        total := AddString(AREA, total, 8);
        total := AddString(PASSWORD, total, 8);
      } else {
        LenSumClear(Shape(), Snap(), 8, 10);
      }
    }

    /** The group guarded by 30720. */
    method OptionalNumbersSize() returns (total: nat)
      requires Valid()
      ensures total == Bytes(11, 15)
    {
      hide Shape, Ones, Shl, Test, Sound, LenSum;
      MaskValues();
      GuardOff(hasBits, 30720, 4, 11);
      LenSumClear(Shape(), Snap(), 11, 11);
      total := 0;
      if Test(hasBits, 30720) {
        total := AddNumber(GENDER, total, 11);
        total := AddNumber(ADD_IDENTITY, total, 11);
        total := AddNumber(DEL_IDENTITY, total, 11);
        total := AddNumber(IMID, total, 11);
      } else {
        LenSumClear(Shape(), Snap(), 11, 15);
      }
    }

    /** The guards 254, 768 and 30720 and the all-required fast path add up to the size of the message,
        which is the number of bytes written unless a string of four gigabytes or more is involved. */
    method ByteSizeLong() returns (total: nat)
      requires Valid()
      modifies this`cachedSize
      ensures Valid() && total == ByteSize(S.UserRegister, Value()) == |Emit(S.UserRegister, Value())|
      ensures cachedSize == ToCachedSize(total)
      ensures total < TWO_31 ==> cachedSize == total == |Serialize(S.UserRegister, Value())|
    {
      hide Shape, Sound, Invariant, Len, LenSum, ValueOf, Serialize, Emit, ByteSize, EncodeRecords;
      NoneWritten(1, S.UserRegister);
      EmitLength(S.UserRegister, Value());
      if ByteSize(S.UserRegister, Value()) < TWO_31 { SmallIsExact(S.UserRegister, Value()); }
      ghost var st := Snap();
      Bounds(Shape(), st);
      TotalLength(Shape(), st);
      LenSumJoin(Shape(), st, 0, 1, 15);
      LenSumJoin(Shape(), st, 1, 8, 15);
      LenSumJoin(Shape(), st, 8, 10, 15);
      LenSumJoin(Shape(), st, 10, 11, 15);
      total := 0;
      if unknown != [] {
        total := total + |EncodeRecords(unknown)|;
      }
      var required := RequiredSize();
      var strings := OptionalStringsSize();
      var late := LateStringsSize();
      var numbers := OptionalNumbersSize();
      total := total + required + strings + late + numbers;
      cachedSize := ToCachedSize(total);
    }

    // --------------------------------------------------------- serializing

    /** Writes the field with index `i` if its has-bit is set. */
    method WriteField(i: nat, out: bytes, ghost goal: bytes) returns (r: bytes)
      requires Valid() && i < BITS && Written(Shape(), out, Value(), i, goal)
      ensures Written(Shape(), r, Value(), i + 1, goal)
    {
      hide Shape, Sound, Invariant, ValueOf, Written, FieldBytes;
      Bounds(Shape(), Snap());
      FieldBytesForm(Shape(), Snap(), i);
      var k := Shape().bitOf[i];
      r := out;
      if k in hasBits {
        if k < STRINGS {
          r := r + (EncodeTag(i + 1, 2) + EmitDelimited(strs[k]));
        } else {
          r := r + (EncodeTag(i + 1, 0) + EncodeVarint(ToWire(nums[k - STRINGS])));
        }
      }
      WroteField(Shape(), Snap(), i, out, r, goal);
    }

    /** SerializeWithCachedSizes: the members in field number order, then the unknown fields. */
    method SerializeWithCachedSizes(out: bytes) returns (r: bytes)
      requires Valid()
      ensures r == out + Emit(S.UserRegister, Value())
    {
      hide Shape, Written, Invariant, ValueOf;
      ghost var goal := out + Emit(S.UserRegister, Value());
      WroteNothing(Shape(), out, Value(), goal);
      r := out;
      r := WriteField(0, r, goal);  // user_type
      r := WriteField(1, r, goal);  // guid
      r := WriteField(2, r, goal);  // nickname
      r := WriteField(3, r, goal);  // avatar
      r := WriteField(4, r, goal);  // mobile
      r := WriteField(5, r, goal);  // introduction
      r := WriteField(6, r, goal);  // gender
      r := WriteField(7, r, goal);  // add_identity
      r := WriteField(8, r, goal);  // del_identity
      r := WriteField(9, r, goal);  // company
      r := WriteField(10, r, goal);  // occupation
      r := WriteField(11, r, goal);  // industry
      r := WriteField(12, r, goal);  // area
      r := WriteField(13, r, goal);  // password
      r := WriteField(14, r, goal);  // imid
      Bounds(Shape(), Snap());
      WroteAll(Shape(), Snap(), r, goal);
      if unknown != [] {
        r := r + EncodeRecords(unknown);
      }
    }
  }
}

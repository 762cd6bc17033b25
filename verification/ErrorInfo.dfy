/** errorinfo: two strings and a signed error code, the nested message of every acknowledgement. */
module ErrorInfoClass {
  import opened ArrayWriter
  import opened Wire
  import opened Unknown
  import opened Message
  import opened HasBits
  import opened Failing
  import opened Members
  import opened MergeLaws
  import opened Sizing
  import opened Streams
  import opened Writing
  import S = Schemas
  import P = Presence

  // The has-bit of each member.
  const ERROR_INFO: nat := 0
  const ERROR_CLIENT_SHOW: nat := 1
  const ERROR_CODE: nat := 2
  const STRINGS: nat := 2
  const BITS: nat := 3

  const BIT_OF: seq<nat> := [ERROR_CODE, ERROR_INFO, ERROR_CLIENT_SHOW]
  const FIELD_OF: seq<nat> := [1, 2, 0]
  const TAG_OF: seq<nat> := [8, 18, 26]

  /** The has-bits, tags and types of the class agree with its schema. */
  function Shape(): (l: Layout)
    ensures Sound(l) && l.schema == S.ErrorInfo
    ensures l.strings == STRINGS && l.nested == 0 && |l.bitOf| == |l.fieldOf| == |l.tagOf| == BITS
    ensures l.fieldOf[ERROR_CODE] == 0
  {
    Layout(S.ErrorInfo, STRINGS, 0, BIT_OF, FIELD_OF, TAG_OF)
  }

  /** The has-bit of each field in field order, and the slot that each accessor works on. */
  lemma AccessorSlots()
    ensures Shape().bitOf == [2, 0, 1]
    ensures Shape().fieldOf[ERROR_INFO] == 1 && Shape().fieldOf[ERROR_CLIENT_SHOW] == 2 && Shape().fieldOf[ERROR_CODE] == 0
  {
    hide Sound;
  }

  class ErrorInfo {
    var hasBits: word
    var strs: seq<bytes>
    var nums: seq<int>
    var unknown: seq<Record>
    var cachedSize: int

    ghost function Snap(): (st: Store)
      reads this`hasBits, this`strs, this`nums, this`unknown
    {
      Store(hasBits, strs, [], nums, unknown)
    }

    ghost predicate Valid()
      reads this`hasBits, this`strs, this`nums, this`unknown
    {
      Invariant(Shape(), Snap())
    }

    /** The message this object stands for. */
    ghost function Value(): (m: Msg)
      requires Valid()
      reads this`hasBits, this`strs, this`nums, this`unknown
    {
      ValueOf(Shape(), Snap())
    }

    lemma ValueOk()
      requires Valid()
      ensures Conforms(S.ErrorInfo, Value())
    {
      hide Shape, Invariant, ValueOf, Conforms;
      ValueConforms(Shape(), Snap());
    }

    constructor ()
      ensures Valid() && IsFresh(Shape(), Snap()) && Value() == Empty(S.ErrorInfo)
    {
      hasBits, strs, nums, unknown, cachedSize := {}, seq(STRINGS, _ => []), [0], [], 0;
      new;
      FreshInvariant(Shape(), Snap());
    }

    predicate Has(k: nat) reads this { k in hasBits }

    // ------------------------------------------------------ clear and merge

    method ClearIfSet(k: nat, ghost start: seq<bytes>)
      requires ClearedUpto(strs, start, k) && k < |strs| && (k !in hasBits ==> start[k] == [])
      modifies this`strs
      ensures ClearedUpto(strs, start, k + 1)
    {
      if k in hasBits { strs := strs[k := []]; }
    }

    /** Clear: the strings behind the guard 3, the error code always. */
    method Clear()
      requires Valid()
      modifies this`hasBits, this`strs, this`nums, this`unknown
      ensures Valid() && IsFresh(Shape(), Snap()) && Value() == Empty(S.ErrorInfo)
    {
      hide Shape, Ones, Shl, Test, Sound, ValueOf;
      ghost var start := strs;
      MaskValues();
      if Test(hasBits, 3) {
        ClearIfSet(ERROR_INFO, start);
        ClearIfSet(ERROR_CLIENT_SHOW, start);
      } else {
        GuardOff(hasBits, 3, 2, 0);
      }
      nums := [0];
      hasBits := {};
      unknown := [];
      FreshInvariant(Shape(), Snap());
    }

    method MergeString(from: ErrorInfo, k: nat, ghost h0: word, ghost ss0: seq<bytes>)
      requires from != this && k < |from.strs|
      requires MergedUpto(hasBits, strs, h0, ss0, from.hasBits, from.strs, k)
      modifies this`hasBits, this`strs
      ensures MergedUpto(hasBits, strs, h0, ss0, from.hasBits, from.strs, k + 1)
    {
      if k in from.hasBits {
        hasBits := hasBits + {k};
        strs := strs[k := from.strs[k]];
      }
    }

    method MergeNumber(from: ErrorInfo, k: nat, ghost ns0: seq<int>)
      requires from != this && STRINGS <= k < STRINGS + |from.nums|
      requires NumbersUpto(STRINGS, nums, ns0, from.hasBits, from.nums, k)
      modifies this`nums
      ensures NumbersUpto(STRINGS, nums, ns0, from.hasBits, from.nums, k + 1)
    {
      if k in from.hasBits {
        nums := nums[k - STRINGS := from.nums[k - STRINGS]];
      }
    }

    /** MergeFrom: the group guarded by 7. */
    method MergeFrom(from: ErrorInfo)
      requires Valid() && from.Valid() && from != this
      modifies this`hasBits, this`strs, this`nums, this`unknown
      ensures Valid() && Value() == Merge(old(Value()), from.Value())
      ensures hasBits == old(hasBits) + from.hasBits
    {
      hide Shape, Ones, Shl, Test, Sound, Invariant, ValueOf, MergedUpto, NumbersUpto, SubsUpto, Merge;
      ghost var h, h0, ss0, ns0 := hasBits, hasBits, strs, nums;
      Bounds(Shape(), from.Snap());
      MergeStart(Shape(), Snap(), from.Snap());
      MaskValues();
      unknown := unknown + from.unknown;
      if Test(from.hasBits, 7) {
        MergeString(from, ERROR_INFO, h0, ss0);
        MergeString(from, ERROR_CLIENT_SHOW, h0, ss0);
        MergeNumber(from, ERROR_CODE, ns0);
        MergeBits(hasBits, strs, h0, ss0, from.hasBits, from.strs, 2);
        h := hasBits;
        hasBits := hasBits + from.hasBits;
      } else {
        GuardOff(from.hasBits, 7, 3, 0);
        NoBits(Shape(), from.Snap());
        SkipStrings(hasBits, strs, h0, ss0, from.hasBits, from.strs, 0, 2);
        SkipNumbers(STRINGS, nums, ns0, from.hasBits, from.nums, STRINGS, BITS);
      }
      assert hasBits == h0 + from.hasBits;
      MergeEnd(Shape(), old(Snap()), from.Snap(), Snap(), h, 2);
    }

    /** CopyFrom: whatever the target held, it ends up equal to the source. */
    method CopyFrom(from: ErrorInfo)
      requires Valid() && from.Valid()
      modifies this`hasBits, this`strs, this`nums, this`unknown
      ensures Valid() && Value() == old(from.Value())
      ensures from != this ==> from.Value() == old(from.Value())
    {
      hide Invariant, ValueOf;
      if from == this {
        return;
      }
      Clear();
      MergeFrom(from);
      ValueConforms(Shape(), from.Snap());
      MergeLeftIdentity(S.ErrorInfo, from.Value());
    }

    method IsInitialized() returns (r: bool)
      requires Valid()
      ensures r <==> Initialized(S.ErrorInfo, Value())
    {
      hide Ones, Shl, TestAll, Initialized, Shape, Invariant, ValueOf;
      MaskValues();
      AllSet(hasBits, 4, 1, 2);
      AbsentIffClear(Shape(), Snap(), ERROR_CODE);
      SlotCount(Shape(), Snap());
      P.ErrorInfoRequired(Value());
      assert TestAll(hasBits, 4) <==> ERROR_CODE in hasBits;
      r := TestAll(hasBits, 4);
    }

    // ------------------------------------------------------------- parsing

    /** A number case of the switch: the has-bit is set before the number is read, and the readers of
        unsigned numbers store whatever they get. */
    method ReadNumber(input: CodedInputStream, k: nat, ghost depth: nat, ghost cur: Value) returns (ok: bool)
      requires Valid() && input.Valid() && STRINGS <= k < BITS
      modifies this`hasBits, this`nums, input`pos
      ensures Valid() && input.Valid()
      ensures var i := Shape().fieldOf[k];
              && Value() == Put(old(Value()), i, Value().slots[i])
              && ReadValue(KindOf(Shape(), k), depth, cur, 0, old(input.Rest()))
                 == (if ok then Got(Value().slots[i], input.Rest()) else Bad)
              && (!ok ==> LeavesValue(KindOf(Shape(), k), depth, old(Value()).slots[i], 0, old(input.Rest()),
                                      Value().slots[i]))
    {
      hide Shape, ReadValue, ValueOf, Invariant, Sound;
      Bounds(Shape(), Snap());
      MarkOnly(Shape(), Snap(), k);
      hasBits := hasBits + {k};
      var v;
      ok, v := input.ReadPrimitive(KindOf(Shape(), k).w, depth, cur);
      if ok || KindOf(Shape(), k).w != I32 {
        StoreNumber(Shape(), old(Snap()), k, v);
        nums := nums[k - STRINGS := v];
      }
    }

    method ReadString(input: CodedInputStream, k: nat, ghost depth: nat, ghost cur: Value) returns (ok: bool)
      requires Valid() && input.Valid() && k < STRINGS
      modifies this`hasBits, this`strs, input`pos
      ensures Valid() && input.Valid()
      ensures var i := Shape().fieldOf[k];
              && Value() == Put(old(Value()), i, Value().slots[i])
              && ReadValue(KindOf(Shape(), k), depth, cur, 2, old(input.Rest()))
                 == (if ok then Got(Value().slots[i], input.Rest()) else Bad)
              && (!ok ==> Value().slots[i].Raw?)
    {
      hide Shape, ValueOf, Invariant, Sound;
      Bounds(Shape(), Snap());
      MarkOnly(Shape(), Snap(), k);
      hasBits := hasBits + {k};
      var b;
      ok, b := input.ReadBytes();
      if ok {
        StoreString(Shape(), old(Snap()), k, b);
        strs := strs[k := b];
      }
    }

    /** The switch: a field number within the class whose low tag byte matches is read, the rest is skipped. */
    method ReadField(input: CodedInputStream, tag: nat) returns (ok: bool)
      requires Valid() && input.Valid() && 0 <= input.budget && 1 <= tag < TWO_32
      modifies this`hasBits, this`strs, this`nums, this`unknown, input`pos
      ensures Valid() && input.Valid()
      ensures Message.ReadField(S.ErrorInfo, input.budget, old(Value()), tag, old(input.Rest()))
              == if ok then Got(Value(), input.Rest()) else Bad
      ensures !ok ==> LeavesField(S.ErrorInfo, input.budget, old(Value()), tag, old(input.Rest()), Value())
    {
      hide Shape, Knows, Sound, Invariant, ReadValue, SkipField, Find;
      TagKnown(Shape(), tag);
      SlotCount(Shape(), Snap());
      if CaseMatches(Shape(), tag) {
        var k := Shape().bitOf[tag / 8 - 1];
        FieldOfBit(Shape(), tag / 8 - 1);
        if k < STRINGS {
          ok := ReadString(input, k, input.budget, old(Value()).slots[tag / 8 - 1]);
        } else {
          ok := ReadNumber(input, k, input.budget, old(Value()).slots[tag / 8 - 1]);
        }
      } else {
        var p;
        ok, p := input.SkipUnknown(tag);
        if ok {
          StoreUnknown(Shape(), Snap(), Record(tag / 8, p));
          unknown := unknown + [Record(tag / 8, p)];
        }
      }
    }

    /** MergePartialFromCodedStream, for every input and every prior content of the object. */
    method MergePartialFromCodedStream(input: CodedInputStream) returns (ok: bool)
      requires Valid() && input.Valid() && 0 <= input.budget
      modifies this`hasBits, this`strs, this`nums, this`unknown, input`pos, input`legitimateEnd
      ensures Valid() && input.Valid()
      ensures match Parse(S.ErrorInfo, input.budget, old(Value()), old(input.Rest()))
              case Complete(m) => ok && Value() == m && input.Rest() == [] && input.legitimateEnd
              case Stopped(m) => ok && Value() == m && !input.legitimateEnd
              case Failed => !ok
      ensures Leaves(S.ErrorInfo, input.budget, old(Value()), old(input.Rest()), Value())
    {
      hide Valid, Value, Follows, Parse, Leaves, LeavesField, Message.ReadField;
      ghost var m0, bs0 := Value(), input.Rest();
      FollowsStart(S.ErrorInfo, input.budget, m0, bs0);
      while true
        invariant Valid() && input.Valid()
        invariant Follows(S.ErrorInfo, input.budget, m0, bs0, Value(), input.Rest())
        decreases |input.Rest()|
      {
        Turn(S.ErrorInfo, input.budget, m0, bs0, Value(), input.Rest());
        var tag := input.ReadTag();
        if tag == 0 {
          return true;
        }
        ok := ReadField(input, tag);
        if !ok {
          return false;
        }
      }
    }

    // ---------------------------------------------------------------- size

    /** What the members from has-bit `lo` up to `hi` count for. */
    ghost function Bytes(lo: nat, hi: nat): (n: nat)
      requires Valid() && lo <= hi <= BITS
      reads this`hasBits, this`strs, this`nums, this`unknown
    {
      LenSum(Shape(), Snap(), lo, hi)
    }

    /** if (has_x()) total_size += 1 + BytesSize(x) */
    method AddString(k: nat, total: nat, ghost lo: nat) returns (r: nat)
      requires Valid() && lo <= k < STRINGS && total == Bytes(lo, k)
      ensures r == Bytes(lo, k + 1)
    {
      hide Shape, Sound;
      StringLen(Shape(), Snap(), k);
      r := if Has(k) then total + 1 + DelimitedSize(|strs[k]|) else total;
    }

    /** if (has_x()) total_size += 1 + Int32Size(x) */
    method AddNumber(k: nat, total: nat, ghost lo: nat) returns (r: nat)
      requires Valid() && STRINGS <= k < BITS && lo <= k && total == Bytes(lo, k)
      ensures r == Bytes(lo, k + 1)
    {
      hide Shape, Sound;
      NumberLen(Shape(), Snap(), k);
      r := if Has(k) then total + 1 + NumberSize(KindOf(Shape(), k).w, nums[k - STRINGS]) else total;
    }

    /** The strings behind the guard 3. */
    method StringsSize() returns (total: nat)
      requires Valid()
      ensures total == Bytes(0, 2)
    {
      hide Shape, Ones, Shl, Test, Sound, LenSum;
      MaskValues();
      GuardOff(hasBits, 3, 2, 0);
      LenSumClear(Shape(), Snap(), 0, 0);
      total := 0;
      if Test(hasBits, 3) {
        total := AddString(ERROR_INFO, total, 0);
        total := AddString(ERROR_CLIENT_SHOW, total, 0);
      } else {
        LenSumClear(Shape(), Snap(), 0, 2);
      }
    }

    /** The error code and the guarded strings add up to the size of the message. */
    method ByteSizeLong() returns (total: nat)
      requires Valid()
      modifies this`cachedSize
      ensures Valid() && total == ByteSize(S.ErrorInfo, Value()) == |Emit(S.ErrorInfo, Value())| && CacheFilled()
      ensures total < TWO_31 ==> CacheExact()
    {
      hide Shape, Sound, Invariant, Len, LenSum, ValueOf, Serialize, Emit, ByteSize, EncodeRecords;
      NoneWritten(1, S.ErrorInfo);
      Bounds(Shape(), Snap());
      EmitLength(S.ErrorInfo, Value());
      if ByteSize(S.ErrorInfo, Value()) < TWO_31 { SmallIsExact(S.ErrorInfo, Value()); }
      TotalLength(Shape(), Snap());
      LenSumJoin(Shape(), Snap(), 0, 2, 3);
      LenSumClear(Shape(), Snap(), 2, 2);
      total := 0;
      if unknown != [] {
        total := total + |EncodeRecords(unknown)|;
      }
      var code := AddNumber(ERROR_CODE, 0, 2);
      var strings := StringsSize();
      total := total + code + strings;
      cachedSize := ToCachedSize(total);
    }

    /** The cached size is what ByteSizeLong leaves. */
    ghost predicate CacheFilled()
      requires Valid()
      reads this`hasBits, this`strs, this`nums, this`unknown, this`cachedSize
    {
      cachedSize == ToCachedSize(ByteSize(S.ErrorInfo, Value()))
    }

    /** The cached size is the length of the encoding. */
    ghost predicate CacheExact()
      requires Valid()
      reads this`hasBits, this`strs, this`nums, this`unknown, this`cachedSize
    {
      cachedSize == |Serialize(S.ErrorInfo, Value())| < TWO_31
    }

    // --------------------------------------------------------- serializing

    /** Writes the field with index `i` if its has-bit is set. */
    method WriteField(i: nat, out: bytes, ghost goal: bytes) returns (r: bytes)
      requires Valid() && i < BITS && Written(Shape(), out, Value(), i, goal)
      ensures Written(Shape(), r, Value(), i + 1, goal)
    {
      hide Shape, Sound, Invariant, ValueOf, Written, FieldBytes;
      Bounds(Shape(), Snap());
      FieldBytesForm(Shape(), Snap(), i);
      var k := Shape().bitOf[i];
      r := out;
      if k in hasBits {
        if k < STRINGS {
          r := r + (EncodeTag(i + 1, 2) + EmitDelimited(strs[k]));
        } else {
          r := r + (EncodeTag(i + 1, 0) + EncodeVarint(ToWire(nums[k - STRINGS])));
        }
      }
      WroteField(Shape(), Snap(), i, out, r, goal);
    }

    /** SerializeWithCachedSizes: the members in field number order, then the unknown fields. */
    method SerializeWithCachedSizes(out: bytes) returns (r: bytes)
      requires Valid()
      ensures r == out + Emit(S.ErrorInfo, Value())
    {
      hide Shape, Written, Invariant, ValueOf;
      ghost var goal := out + Emit(S.ErrorInfo, Value());
      WroteNothing(Shape(), out, Value(), goal);
      r := out;
      r := WriteField(0, r, goal);  // error_code
      r := WriteField(1, r, goal);  // error_info
      r := WriteField(2, r, goal);  // error_client_show
      Bounds(Shape(), Snap());
      WroteAll(Shape(), Snap(), r, goal);
      if unknown != [] {
        r := r + EncodeRecords(unknown);
      }
    }

    // ----------------------------------------------------- array serializer

    /** What is emitted, field by field. */
    lemma EmitParts()
      requires Valid()
      ensures Emit(S.ErrorInfo, Value())
           == FieldBytes(Shape(), Snap(), 0) + FieldBytes(Shape(), Snap(), 1)
              + (FieldBytes(Shape(), Snap(), 2) + EncodeRecords(unknown))
    {
      hide Sound, EmitSlot, EncodeRecords;
      var s, m := S.ErrorInfo, Value();
      EmitEnd(s, m);
      assert EmitFrom(s, m, 2) == EmitSlot(s.fields[2], m.slots[2]) + EncodeRecords(unknown);
      assert EmitFrom(s, m, 1) == EmitSlot(s.fields[1], m.slots[1]) + EmitFrom(s, m, 2);
      assert EmitFrom(s, m, 0) == EmitSlot(s.fields[0], m.slots[0]) + EmitFrom(s, m, 1);
    }

    /** Writes the field with index `i` in place if its has-bit is set. */
    method WriteFieldToArray(i: nat, target: array<byte>, at: nat) returns (end: nat)
      requires Valid() && i < BITS && at + |FieldBytes(Shape(), Snap(), i)| <= target.Length
      modifies target
      ensures Wrote(target, at, end, FieldBytes(Shape(), Snap(), i))
    {
      hide Shape, Sound, Invariant, FieldBytes, EncodeTag, EmitDelimited, EncodeVarint, Spliced;
      Bounds(Shape(), Snap());
      FieldBytesForm(Shape(), Snap(), i);
      SpliceNone(target[..], at);
      var k := Shape().bitOf[i];
      end := at;
      if k in hasBits {
        if k < STRINGS {
          end := WriteDelimitedToArray(i + 1, |strs[k]| % TWO_32, strs[k], target, at);
        } else {
          end := WriteNumberToArray(i + 1, nums[k - STRINGS], target, at);
        }
      }
    }

    method WriteFrontToArray(target: array<byte>, at: nat) returns (end: nat)
      requires Valid()
      requires at + |FieldBytes(Shape(), Snap(), 0) + FieldBytes(Shape(), Snap(), 1)| <= target.Length
      modifies target
      ensures Wrote(target, at, end, FieldBytes(Shape(), Snap(), 0) + FieldBytes(Shape(), Snap(), 1))
    {
      hide Shape, Sound, Invariant, FieldBytes, Spliced;
      Bounds(Shape(), Snap());
      ghost var t0 := target[..];
      var a := WriteFieldToArray(0, target, at);
      ghost var t1 := target[..];
      end := WriteFieldToArray(1, target, a);
      SpliceJoin(t0, t1, target[..], at, a, end, FieldBytes(Shape(), Snap(), 0), FieldBytes(Shape(), Snap(), 1));
    }

    method WriteBackToArray(target: array<byte>, at: nat) returns (end: nat)
      requires Valid() && at + |FieldBytes(Shape(), Snap(), 2) + EncodeRecords(unknown)| <= target.Length
      modifies target
      ensures Wrote(target, at, end, FieldBytes(Shape(), Snap(), 2) + EncodeRecords(unknown))
    {
      hide Shape, Sound, Invariant, FieldBytes, EncodeRecords, Spliced;
      NoneWritten(1, S.ErrorInfo);
      Bounds(Shape(), Snap());
      ghost var field := FieldBytes(Shape(), Snap(), 2);
      ghost var t0 := target[..];
      end := WriteFieldToArray(2, target, at);
      assert field + [] == field;
      if unknown != [] {
        ghost var t1, a := target[..], end;
        end := WriteRawToArray(EncodeRecords(unknown), target, end);
        SpliceJoin(t0, t1, target[..], at, a, end, field, EncodeRecords(unknown));
      }
    }

    /** The array serializer writes in place what the stream serializer writes. */
    method InternalSerializeWithCachedSizesToArray(target: array<byte>, at: nat) returns (end: nat)
      requires Valid() && at + |Emit(S.ErrorInfo, Value())| <= target.Length
      modifies target
      ensures Wrote(target, at, end, Emit(S.ErrorInfo, Value()))
    {
      hide Shape, Sound, Invariant, ValueOf, FieldBytes, Emit, EncodeRecords, Spliced;
      Bounds(Shape(), Snap());
      EmitParts();
      ghost var front := FieldBytes(Shape(), Snap(), 0) + FieldBytes(Shape(), Snap(), 1);
      ghost var back := FieldBytes(Shape(), Snap(), 2) + EncodeRecords(unknown);
      ghost var t0 := target[..];
      var a := WriteFrontToArray(target, at);
      ghost var t1 := target[..];
      end := WriteBackToArray(target, a);
      SpliceJoin(t0, t1, target[..], at, a, end, front, back);
    }
  }

  /** An errorinfo is written in place behind its cached size. */
  method WriteErrorInfoToArray(number: nat, value: ErrorInfo, target: array<byte>, at: nat) returns (end: nat)
    requires value.Valid() && value.CacheFilled()
    requires at + |EncodeTag(number, 2) + EmitDelimited(Emit(S.ErrorInfo, value.Value()))| <= target.Length
    modifies target
    ensures Wrote(target, at, end, EncodeTag(number, 2) + EmitDelimited(Emit(S.ErrorInfo, value.Value())))
  {
    hide ErrorInfo.Valid, ErrorInfo.Value, Emit, ByteSize, EncodeTag, EncodeVarint, Spliced;
    ghost var body := Emit(S.ErrorInfo, value.Value());
    EmitLength(S.ErrorInfo, value.Value());
    CachedPrefix(ByteSize(S.ErrorInfo, value.Value()));
    ghost var t0 := target[..];
    var a := WriteTagToArray(number, 2, target, at);
    ghost var t1 := target[..];
    var b := WriteVarint64ToArray(value.cachedSize % TWO_32, target, a);
    ghost var t2 := target[..];
    end := value.InternalSerializeWithCachedSizesToArray(target, b);
    SpliceJoin(t1, t2, target[..], a, b, end, EncodeVarint(|body| % TWO_32), body);
    SpliceJoin(t0, t1, target[..], at, a, end, EncodeTag(number, 2), EmitDelimited(body));
  }

  /** An errorinfo is written behind its cached size. */
  method WriteErrorInfo(number: nat, value: ErrorInfo, out: bytes) returns (r: bytes)
    requires value.Valid() && value.CacheFilled()
    ensures r == out + (EncodeTag(number, 2) + EmitDelimited(Emit(S.ErrorInfo, value.Value())))
  {
    hide ErrorInfo.Valid, ErrorInfo.Value, Emit, ByteSize, EncodeTag, EncodeVarint;
    EmitLength(S.ErrorInfo, value.Value());
    CachedPrefix(ByteSize(S.ErrorInfo, value.Value()));
    r := out + EncodeTag(number, 2) + EncodeVarint(value.cachedSize % TWO_32);
    r := value.SerializeWithCachedSizes(r);
  }

  /** ReadMessage for an errorinfo. */
  method ReadErrorInfo(input: CodedInputStream, value: ErrorInfo) returns (ok: bool)
    requires value.Valid() && input.Valid() && 0 <= input.budget
    modifies value`hasBits, value`strs, value`nums, value`unknown
    modifies input`pos, input`limit, input`budget, input`legitimateEnd
    ensures value.Valid() && input.Valid()
    ensures ok ==> input.limit == old(input.limit) && input.budget == old(input.budget)
    ensures ReadNested(S.ErrorInfo, old(input.budget), old(value.Value()), old(input.Rest()))
            == if ok then Got(value.Value(), input.Rest()) else Bad
    ensures LeavesNested(S.ErrorInfo, old(input.budget), old(value.Value()), old(input.Rest()), value.Value())
  {
    hide ErrorInfo.Valid, ErrorInfo.Value, Parse, Leaves, ReadSize;
    var begun, enclosing := input.OpenMessage();
    if !begun {
      return false;
    }
    ok := value.MergePartialFromCodedStream(input);
    if !ok {
      return false;
    }
    ok := input.DecrementRecursionDepthAndPopLimit(enclosing);
  }
}

/** TEXT_CONTENT: a string and a list of users to remind, the leaf that holds an ordinary chat text. */
module TextContentClass {
  import opened Wire
  import opened Unknown
  import opened Message
  import opened ArrayWriter
  import opened Failing
  import opened HasBits
  import opened MergeLaws
  import opened Nested
  import opened NumberFields
  import opened Sizing
  import opened Streams
  import opened Writing
  import S = Schemas

  const MSG: nat := 0

  /** The message that the members stand for. */
  ghost function Assemble(has: word, text: bytes, users: seq<int>, unknown: seq<Record>): (m: Msg) {
    Msg([if MSG in has then Raw(text) else Absent, Nums(users)], unknown)
  }

  lemma AssembleConforms(has: word, text: bytes, users: seq<int>, unknown: seq<Record>)
    ensures Conforms(S.TextContent, Assemble(has, text, users, unknown))
  {
  }

  lemma AssembleEmpty(text: bytes)
    ensures Assemble({}, text, [], []) == Empty(S.TextContent)
  {
    assert Assemble({}, text, [], []).slots == Empty(S.TextContent).slots;
  }

  lemma AssembleMerge(h: word, t: bytes, ns: seq<int>, u: seq<Record>, h': word, t': bytes, ns': seq<int>,
                      u': seq<Record>)
    ensures Assemble(h + h', if MSG in h' then t' else t, ns + ns', u + u')
         == Merge(Assemble(h, t, ns, u), Assemble(h', t', ns', u'))
  {
    var x, y := Assemble(h, t, ns, u), Assemble(h', t', ns', u');
    assert Assemble(h + h', if MSG in h' then t' else t, ns + ns', u + u').slots == Merge(x, y).slots;
  }

  ghost function TextBytes(has: word, text: bytes): bytes {
    if MSG in has then EncodeTag(1, 2) + EmitDelimited(text) else []
  }

  /** What is emitted, part by part. */
  lemma AssembleBytes(has: word, text: bytes, users: seq<int>, unknown: seq<Record>)
    ensures Emit(S.TextContent, Assemble(has, text, users, unknown))
         == TextBytes(has, text) + EncodeNums(2, users) + EncodeRecords(unknown)
  {
    hide Emit, EncodeNums, EncodeRecords, EncodeTag, EmitDelimited;
    var s, m := S.TextContent, Assemble(has, text, users, unknown);
    EmitFirst(s, m);
    EmitEnd(s, m);
    assert EmitFrom(s, m, 1) == EmitSlot(s.fields[1], m.slots[1]) + EncodeRecords(unknown);
  }

  /** The size, part by part. */
  lemma AssembleSize(has: word, text: bytes, users: seq<int>, unknown: seq<Record>)
    ensures ByteSize(S.TextContent, Assemble(has, text, users, unknown))
         == (if MSG in has then 1 + DelimitedSize(|text|) else 0) + |EncodeNums(2, users)| + |EncodeRecords(unknown)|
  {
    hide EncodeNums, EncodeRecords, EncodeTag, DelimitedSize;
    var s, m := S.TextContent, Assemble(has, text, users, unknown);
    SizeStep(s, m, 0);
    SizeStep(s, m, 1);
    SizeEnd(s, m);
    ShortTag(1, 2);
    assert SlotSize(s.fields[1], m.slots[1]) == |EncodeNums(2, users)|;
  }

  /** The tags of the three cases of the switch. */
  lemma KnownTags(tag: nat)
    ensures Knows(S.TextContent, tag) <==>
              || (tag / 8 == 1 && tag % 256 == 10)
              || (tag / 8 == 2 && tag % 256 == 16) || (tag / 8 == 2 && tag % 256 == 18)
    ensures 1 <= tag / 8 <= 2 ==> Find(S.TextContent.fields, tag / 8) == tag / 8 - 1 && tag < 32
  {
    S.FindConsecutive(S.TextContent, tag / 8);
  }

  /** The second field is the list. */
  lemma UserList()
    ensures ListOf(S.TextContent, U32)
  {
    S.FindConsecutive(S.TextContent, 2);
  }

  lemma TextRequired(m: Msg)
    requires |m.slots| == 2
    ensures Initialized(S.TextContent, m) <==> !m.slots[0].Absent?
  {
    var s := S.TextContent;
    assert InitializedField(s.fields[0], m.slots[0]) <==> !m.slots[0].Absent?;
    assert InitializedField(s.fields[1], m.slots[1]);
  }

  class TextContent {
    var hasBits: word
    var msg: bytes
    const remindUserList: NumberField
    var unknown: seq<Record>
    var cachedSize: int

    ghost predicate Valid()
      reads this`hasBits, this`msg, remindUserList`elements, remindUserList`capacity
    {
      && hasBits <= {MSG} && (MSG !in hasBits ==> msg == [])
      && remindUserList.w == U32 && remindUserList.Valid()
    }

    ghost function Value(): (m: Msg)
      reads this`hasBits, this`msg, remindUserList`elements, this`unknown
    {
      Assemble(hasBits, msg, remindUserList.elements, unknown)
    }

    constructor ()
      ensures Valid() && Value() == Empty(S.TextContent) && fresh(remindUserList)
    {
      hasBits, msg, unknown, cachedSize := {}, [], [], 0;
      remindUserList := new NumberField(U32);
      new;
      AssembleEmpty([]);
    }

    /** Clear: the list keeps its room, and the object is observably new. */
    method Clear()
      requires Valid()
      modifies this`hasBits, this`msg, this`unknown, remindUserList`elements
      ensures Valid() && Value() == Empty(S.TextContent)
    {
      remindUserList.Clear();
      if MSG in hasBits {
        msg := [];
      }
      hasBits := {};
      unknown := [];
      AssembleEmpty(msg);
    }

    /** MergeFrom: the users are appended, and a text replaces the one held. */
    method MergeFrom(from: TextContent)
      requires Valid() && from.Valid() && from != this && from.remindUserList != remindUserList
      modifies this`hasBits, this`msg, this`unknown, remindUserList`elements, remindUserList`capacity
      ensures Valid() && Value() == Merge(old(Value()), from.Value())
      ensures hasBits == old(hasBits) + from.hasBits
    {
      hide Assemble, Merge;
      ghost var h, t, ns, u := hasBits, msg, remindUserList.elements, unknown;
      unknown := unknown + from.unknown;
      remindUserList.MergeFrom(from.remindUserList);
      if MSG in from.hasBits {
        hasBits := hasBits + {MSG};
        msg := from.msg;
      }
      assert hasBits == h + from.hasBits;
      AssembleMerge(h, t, ns, u, from.hasBits, from.msg, from.remindUserList.elements, from.unknown);
    }

    method CopyFrom(from: TextContent)
      requires Valid() && from.Valid() && (from == this || from.remindUserList != remindUserList)
      modifies this`hasBits, this`msg, this`unknown, remindUserList`elements, remindUserList`capacity
      ensures Valid() && Value() == old(from.Value())
    {
      hide Assemble, Merge;
      if from == this {
        return;
      }
      Clear();
      MergeFrom(from);
      AssembleConforms(from.hasBits, from.msg, from.remindUserList.elements, from.unknown);
      MergeLeftIdentity(S.TextContent, from.Value());
    }

    method IsInitialized() returns (r: bool)
      requires Valid()
      ensures r <==> Initialized(S.TextContent, Value())
    {
      hide Initialized;
      TextRequired(Value());
      r := MSG in hasBits;
    }

    // ------------------------------------------------------------- parsing

    method ReadMsg(input: CodedInputStream) returns (ok: bool)
      requires Valid() && input.Valid() && 0 <= input.budget
      modifies this`hasBits, this`msg, input`pos
      ensures Valid() && input.Valid()
      ensures ReadValue(Bytes, input.budget, old(Value()).slots[0], 2, old(input.Rest()))
              == if ok then Got(Value().slots[0], input.Rest()) else Bad
      ensures Value() == Put(old(Value()), 0, Value().slots[0]) && Value().slots[0].Raw?
    {
      hasBits := hasBits + {MSG};
      var b;
      ok, b := input.ReadBytes();
      if ok {
        msg := b;
      }
    }

    /** The members with another list. */
    lemma OtherList(m: Msg, users: seq<int>)
      requires m == Assemble(hasBits, msg, users, unknown)
      ensures Value() == WithList(m, remindUserList.elements)
    {
    }

    /** The unpacked case. */
    method ReadUsers(input: CodedInputStream) returns (ok: bool)
      requires Valid() && input.Valid() && 0 <= input.budget
      modifies remindUserList`elements, remindUserList`capacity, input`pos
      ensures Valid() && input.Valid() && (ok ==> |input.Rest()| < |old(input.Rest())|)
      ensures match ReadField(S.TextContent, input.budget, old(Value()), UNPACKED_TAG, old(input.Rest()))
              case Bad => !ok && LeavesField(S.TextContent, input.budget, old(Value()), UNPACKED_TAG,
                                             old(input.Rest()), Value())
              case Got(m, rest) => Continues(S.TextContent, input.budget, m, rest, ok, Value(), input.Rest())
    {
      hide ReadField, LeavesField, Continues, ListOf;
      ghost var m := Value();
      UserList();
      UnpackedCase(S.TextContent, U32, input.budget, m, remindUserList.elements, input.Rest());
      ok := remindUserList.ReadRepeatedPrimitive(input, S.TextContent, m);
      OtherList(m, old(remindUserList.elements));
    }

    /** The packed case. */
    method ReadPackedUsers(input: CodedInputStream) returns (ok: bool)
      requires Valid() && input.Valid() && 0 <= input.budget
      modifies remindUserList`elements, remindUserList`capacity, input`pos, input`limit, input`legitimateEnd
      ensures Valid() && input.Valid() && (ok ==> input.limit == old(input.limit))
      ensures ReadField(S.TextContent, input.budget, old(Value()), PACKED_TAG, old(input.Rest()))
              == if ok then Got(Value(), input.Rest()) else Bad
      ensures !ok ==> LeavesField(S.TextContent, input.budget, old(Value()), PACKED_TAG, old(input.Rest()), Value())
    {
      hide ReadField, LeavesField, ListOf;
      ghost var m := Value();
      UserList();
      ok := remindUserList.ReadPackedPrimitive(input, S.TextContent, m);
      OtherList(m, old(remindUserList.elements));
    }

    /** The switch. */
    method ReadFields(input: CodedInputStream, tag: nat) returns (ok: bool)
      requires Valid() && input.Valid() && 0 <= input.budget && 1 <= tag < TWO_32
      modifies this`hasBits, this`msg, this`unknown, remindUserList`elements, remindUserList`capacity
      modifies input`pos, input`limit, input`legitimateEnd
      ensures Valid() && input.Valid() && (ok ==> input.limit == old(input.limit))
      ensures ok ==> |input.Rest()| < |old(input.Rest())|
      ensures match ReadField(S.TextContent, input.budget, old(Value()), tag, old(input.Rest()))
              case Bad => !ok && LeavesField(S.TextContent, input.budget, old(Value()), tag, old(input.Rest()), Value())
              case Got(m, rest) => Continues(S.TextContent, input.budget, m, rest, ok, Value(), input.Rest())
    {
      hide Knows, ReadValue, SkipField, Find, Continues;
      KnownTags(tag);
      if tag / 8 == 2 && tag % 256 == 16 {
        ok := ReadUsers(input);
        return;
      }
      if tag / 8 == 1 && tag % 256 == 10 {
        ok := ReadMsg(input);
      } else if tag / 8 == 2 && tag % 256 == 18 {
        ok := ReadPackedUsers(input);
      } else {
        var p;
        ok, p := input.SkipUnknown(tag);
        if ok {
          unknown := unknown + [Record(tag / 8, p)];
        }
      }
      if ok { Stays(S.TextContent, input.budget, Value(), input.Rest()); }
    }

    /** MergePartialFromCodedStream, for every input and every prior content of the object. */
    method MergePartialFromCodedStream(input: CodedInputStream) returns (ok: bool)
      requires Valid() && input.Valid() && 0 <= input.budget
      modifies this`hasBits, this`msg, this`unknown, remindUserList`elements, remindUserList`capacity
      modifies input`pos, input`limit, input`legitimateEnd
      ensures Valid() && input.Valid() && (ok ==> input.limit == old(input.limit))
      ensures match Parse(S.TextContent, input.budget, old(Value()), old(input.Rest()))
              case Complete(m) => ok && Value() == m && input.Rest() == [] && input.legitimateEnd
              case Stopped(m) => ok && Value() == m && !input.legitimateEnd
              case Failed => !ok
      ensures Leaves(S.TextContent, input.budget, old(Value()), old(input.Rest()), Value())
    {
      hide Valid, Value, Follows, Parse, Leaves, LeavesField, ReadField;
      ghost var m0, bs0 := Value(), input.Rest();
      FollowsStart(S.TextContent, input.budget, m0, bs0);
      while true
        invariant Valid() && input.Valid() && input.limit == old(input.limit)
        invariant Follows(S.TextContent, input.budget, m0, bs0, Value(), input.Rest())
        decreases |input.Rest()|
      {
        Turn(S.TextContent, input.budget, m0, bs0, Value(), input.Rest());
        var tag := input.ReadTag();
        if tag == 0 {
          return true;
        }
        ghost var turn := ReadField(S.TextContent, input.budget, Value(), tag, input.Rest());
        ok := ReadFields(input, tag);
        if turn.Got? { Onward(S.TextContent, input.budget, m0, bs0, turn.value, turn.rest, ok, Value(), input.Rest()); }
        if !ok {
          return false;
        }
      }
    }

    // ------------------------------------------------- size and serializing

    /** The cached size is what ByteSizeLong leaves. */
    ghost predicate CacheFilled()
      reads this`hasBits, this`msg, remindUserList`elements, this`unknown, this`cachedSize
    {
      cachedSize == ToCachedSize(ByteSize(S.TextContent, Value()))
    }

    /** ByteSizeLong: the number of bytes that will be emitted, whatever the content. */
    method ByteSizeLong() returns (n: nat)
      requires Valid()
      modifies this`cachedSize
      ensures Valid() && n == ByteSize(S.TextContent, Value()) == |Emit(S.TextContent, Value())| && CacheFilled()
    {
      hide Assemble, Emit, ByteSize, EncodeNums, EncodeRecords, DelimitedSize;
      AssembleSize(hasBits, msg, remindUserList.elements, unknown);
      EmitLength(S.TextContent, Value());
      NoneWritten(2, S.TextContent);
      n := 0;
      if unknown != [] {
        n := n + |EncodeRecords(unknown)|;
      }
      if MSG in hasBits {
        n := n + 1 + DelimitedSize(|msg|);
      }
      var data := remindUserList.DataSize();
      n := n + 1 * |remindUserList.elements| + data;
      cachedSize := ToCachedSize(n);
    }

    /** The stream serializer loops over the list. */
    method SerializeWithCachedSizes(out: bytes) returns (r: bytes)
      ensures r == out + Emit(S.TextContent, Value())
    {
      hide Assemble, Emit, EncodeNums, EncodeRecords, EmitDelimited, EncodeTag;
      AssembleBytes(hasBits, msg, remindUserList.elements, unknown);
      NoneWritten(2, S.TextContent);
      r := out;
      if MSG in hasBits {
        r := r + (EncodeTag(1, 2) + EmitDelimited(msg));
      }
      r := remindUserList.Write(r);
      if unknown != [] {
        r := r + EncodeRecords(unknown);
      }
    }

    method WriteFrontToArray(target: array<byte>, at: nat) returns (end: nat)
      requires Valid() && at + |TextBytes(hasBits, msg) + EncodeNums(2, remindUserList.elements)| <= target.Length
      modifies target
      ensures Wrote(target, at, end, TextBytes(hasBits, msg) + EncodeNums(2, remindUserList.elements))
    {
      hide EncodeNums, EncodeTag, EmitDelimited, Spliced;
      ghost var t0, text := target[..], TextBytes(hasBits, msg);
      SpliceNone(t0, at);
      var a := at;
      if MSG in hasBits {
        a := WriteDelimitedToArray(1, |msg| % TWO_32, msg, target, at);
      }
      ghost var t1 := target[..];
      end := WriteNumbersToArray(2, remindUserList.elements, target, a);
      SpliceJoin(t0, t1, target[..], at, a, end, text, EncodeNums(2, remindUserList.elements));
    }

    /** The array serializer hands the whole list over, writes in place, and produces the same bytes. */
    method InternalSerializeWithCachedSizesToArray(target: array<byte>, at: nat) returns (end: nat)
      requires Valid() && at + |Emit(S.TextContent, Value())| <= target.Length
      modifies target
      ensures Wrote(target, at, end, Emit(S.TextContent, Value()))
    {
      hide Assemble, Emit, EncodeNums, EncodeRecords, TextBytes, Spliced;
      AssembleBytes(hasBits, msg, remindUserList.elements, unknown);
      NoneWritten(2, S.TextContent);
      ghost var t0, front := target[..], TextBytes(hasBits, msg) + EncodeNums(2, remindUserList.elements);
      end := WriteFrontToArray(target, at);
      assert front + [] == front;
      if unknown != [] {
        ghost var t1, a := target[..], end;
        end := WriteRawToArray(EncodeRecords(unknown), target, end);
        SpliceJoin(t0, t1, target[..], at, a, end, front, EncodeRecords(unknown));
      }
    }
  }

  // ------------------------------------------------- the leaf of a msg_content

  /** A leaf of the tree and a TEXT_CONTENT with the same message read the same. */
  method ReadBoth(leaf: SubMessage, text: TextContent, bs: bytes, depth: nat) returns (ok: bool)
    requires leaf.Valid() && text.Valid() && leaf.schema == S.TextContent && leaf.val == text.Value()
    modifies leaf`val, text`hasBits, text`msg, text`unknown, text.remindUserList`elements, text.remindUserList`capacity
    ensures leaf.Valid() && text.Valid() && (ok ==> leaf.val == text.Value())
    ensures ok <==> !Parse(S.TextContent, depth, old(leaf.val), bs).Failed?
  {
    hide TextContent.Valid, TextContent.Value, Parse, Leaves;
    var one := new CodedInputStream(bs, depth);
    ok := leaf.MergePartialFromCodedStream(one);
    var two := new CodedInputStream(bs, depth);
    var same := text.MergePartialFromCodedStream(two);
    assert ok == same;
  }

  /** They are sized, cached and written the same. */
  method WriteBoth(leaf: SubMessage, text: TextContent, out: bytes) returns (a: bytes, b: bytes)
    requires leaf.Valid() && text.Valid() && leaf.schema == S.TextContent && leaf.val == text.Value()
    modifies leaf`cachedSize, text`cachedSize
    ensures a == b == out + Emit(S.TextContent, text.Value()) && leaf.cachedSize == text.cachedSize
  {
    hide TextContent.Valid, TextContent.Value, Emit, ByteSize, Serialize;
    var _ := leaf.ByteSizeLong();
    var _ := text.ByteSizeLong();
    a := leaf.SerializeWithCachedSizes(out);
    b := text.SerializeWithCachedSizes(out);
  }
}

/**
  How much re-serializing can grow.  Canonical varints are never longer than what
  was read; a packed run that is written back unpacked gains a tag per value, and a
  truncated negative int32 is sign-extended.  Seven times the input is enough.
 */
module Growth {
  import opened Wire
  import opened Unknown
  import opened Message
  import opened MergeLaws
  import opened Writing
  import RT = RoundTrip

  // ------------------------------------------------------------- varints

  lemma VarintBands()
    ensures Pow128(1) == 128 && Pow128(2) == 0x4000 && Pow128(3) == 0x20_0000
    ensures Pow128(4) == 0x1000_0000 && Pow128(5) == 0x8_0000_0000
  {
  }

  lemma {:induction false} VarintAtMost(n: nat, k: nat)
    requires 1 <= k && n < Pow128(k)
    ensures |EncodeVarint(n)| <= k
    decreases k
  {
    if n >= 128 {
      VarintAtMost(n / 128, k - 1);
    }
  }

  lemma {:induction false} VarintAtLeast(n: nat)
    ensures n < Pow128(|EncodeVarint(n)|)
  {
    if n >= 128 {
      VarintAtLeast(n / 128);
    }
  }

  lemma VarintMonotone(a: nat, b: nat)
    requires a <= b
    ensures |EncodeVarint(a)| <= |EncodeVarint(b)|
  {
    VarintAtLeast(b);
    VarintAtMost(a, |EncodeVarint(b)|);
  }

  lemma {:induction false} Pow128Sum(i: nat, j: nat)
    requires 1 <= i && 1 <= j
    ensures Pow128(i) + Pow128(j) <= Pow128(i + j)
    decreases i
  {
    if i == 1 {
      assert Pow128(1 + j) == 128 * Pow128(j) && Pow128(1) == 128;
      assert Pow128(j) >= 128 by { assert Pow128(j) == 128 * Pow128(j - 1); }
    } else {
      Pow128Sum(i - 1, j);
      assert Pow128(i + j) == 128 * Pow128(i - 1 + j);
    }
  }

  lemma VarintSubadditive(a: nat, b: nat)
    ensures |EncodeVarint(a + b)| <= |EncodeVarint(a)| + |EncodeVarint(b)|
  {
    VarintAtLeast(a);
    VarintAtLeast(b);
    Pow128Sum(|EncodeVarint(a)|, |EncodeVarint(b)|);
    VarintAtMost(a + b, |EncodeVarint(a)| + |EncodeVarint(b)|);
  }

  lemma {:induction false} GroupsBelow(bs: bytes, limit: nat)
    requires ReadGroups(bs, limit).Got?
    ensures ReadGroups(bs, limit).value < Pow128(|bs| - |ReadGroups(bs, limit).rest|)
  {
    if bs[0] >= 128 {
      GroupsBelow(bs[1..], limit - 1);
    } else {
      assert Pow128(1) == 128;
    }
  }

  /** What was read is written back in no more bytes. */
  lemma ReadNoLonger(bs: bytes, n: nat)
    requires ReadVarint64(bs).Got? && n <= ReadVarint64(bs).value
    ensures |EncodeVarint(n)| <= |bs| - |ReadVarint64(bs).rest|
  {
    GroupsBelow(bs, MAX_VARINT_BYTES);
    var k := |bs| - |ReadVarint64(bs).rest|;
    assert ReadVarint64(bs).value <= ReadGroups(bs, MAX_VARINT_BYTES).value;
    VarintAtMost(n, k);
  }

  /** A number takes at most twice what it was read from. */
  lemma NumberNoLonger(w: Width, bs: bytes)
    requires ReadVarint64(bs).Got?
    ensures |EncodeVarint(ToWire(FromWire(w, ReadVarint64(bs).value)))| <= 2 * (|bs| - |ReadVarint64(bs).rest|)
  {
    var v := ReadVarint64(bs).value;
    var n := FromWire(w, v);
    if n >= 0 {
      assert ToWire(n) == n <= v;
      ReadNoLonger(bs, n);
    } else {
      assert 0x8000_0000 <= v % TWO_32 <= v;
      ReadNoLonger(bs, v);
      VarintMonotone(0x8000_0000, v);
      RT.Int32SizeIsExact(n);
      FiveBytes();
    }
  }

  lemma FiveBytes()
    ensures |EncodeVarint(0x8000_0000)| == 5
  {
    assert EncodeVarint(0x8000_0000) == [128] + EncodeVarint(0x100_0000);
    assert EncodeVarint(0x100_0000) == [128] + EncodeVarint(0x2_0000);
    assert EncodeVarint(0x2_0000) == [128] + EncodeVarint(0x400);
    assert EncodeVarint(0x400) == [128] + EncodeVarint(8);
  }

  // ------------------------------------------------------ unknown fields

  /** An unknown field is written back in no more bytes than it came in. */
  lemma {:induction false} SkipNoLonger(tag: nat, bs: bytes, depth: nat)
    requires SkipField(tag, bs, depth).Got?
    ensures var Got(p, rest) := SkipField(tag, bs, depth); |EncodePayload(tag / 8, p)| <= |bs| - |rest|
    decreases |bs|, 1
  {
    match tag % 8
    case 0 => ReadNoLonger(bs, ReadVarint64(bs).value);
    case 2 =>
      var n := ReadVarint32(bs).value;
      ReadNoLonger(bs, n);
    case 3 => GroupNoLonger(tag / 8, bs, depth - 1);
    case _ =>
  }

  lemma {:induction false} GroupNoLonger(number: nat, bs: bytes, depth: nat)
    requires SkipGroup(number, bs, depth).Got?
    ensures var Got(rs, rest) := SkipGroup(number, bs, depth);
            |EncodeRecords(rs)| + |EncodeTag(number, 4)| <= |bs| - |rest|
    decreases |bs|, 0
  {
    var Got(tag, rest) := ReadVarint32(bs);
    ReadNoLonger(bs, tag);
    if tag % 8 != 4 {
      SkipNoLonger(tag, rest, depth);
      var Got(p, rest') := SkipField(tag, rest, depth);
      GroupNoLonger(number, rest', depth);
      var Got(rs, rest'') := SkipGroup(number, rest', depth);
      RecordFirst(Record(tag / 8, p), rs);
    }
  }

  lemma RecordFirst(r: Record, rs: seq<Record>)
    ensures |EncodeRecords([r] + rs)|
         == |EncodeTag(r.number, WireTypeOf(r.payload))| + |EncodePayload(r.number, r.payload)| + |EncodeRecords(rs)|
  {
    assert ([r] + rs)[1..] == rs;
  }

  lemma RecordLast(rs: seq<Record>, r: Record)
    ensures |EncodeRecords(rs + [r])|
         == |EncodeRecords(rs)| + |EncodeTag(r.number, WireTypeOf(r.payload))| + |EncodePayload(r.number, r.payload)|
  {
    EncodeRecordsConcat(rs, [r]);
    RecordFirst(r, []);
    assert [r] + [] == [r];
  }

  // ---------------------------------------------------------- known fields

  lemma {:induction false} NumsConcat(number: nat, a: seq<int>, b: seq<int>)
    ensures |EncodeNums(number, a + b)| == |EncodeNums(number, a)| + |EncodeNums(number, b)|
    decreases |a|
  {
    if a == [] {
      assert a + b == b;
    } else {
      assert (a + b)[1..] == a[1..] + b;
      NumsConcat(number, a[1..], b);
    }
  }

  /** A packed run written back value by value. */
  lemma {:induction false} PackedGrowth(number: nat, w: Width, bs: bytes)
    requires ReadPacked(w, bs).Run? && |EncodeTag(number, 0)| <= 5
    ensures |EncodeNums(number, ReadPacked(w, bs).ns)| <= 7 * |bs|
    decreases |bs|
  {
    if bs != [] {
      var Got(v, rest) := ReadVarint64(bs);
      NumberNoLonger(w, bs);
      PackedGrowth(number, w, rest);
      var ns := ReadPacked(w, rest).ns;
      assert ([FromWire(w, v)] + ns)[1..] == ns;
    }
  }

  /** Replacing one slot changes the length by the difference of the slots. */
  lemma {:induction false} PutLength(s: Schema, m: Msg, i: nat, v: Value, j: nat)
    requires |s.fields| == |m.slots| && i < |m.slots| && j <= |m.slots|
    ensures |SerializeFrom(s, Put(m, i, v), j)| + (if j <= i then |EncodeSlot(s.fields[i], m.slots[i])| else 0)
         == |SerializeFrom(s, m, j)| + (if j <= i then |EncodeSlot(s.fields[i], v)| else 0)
    decreases |m.slots| - j
  {
    hide EncodeSlot;
    if j < |m.slots| {
      PutLength(s, m, i, v, j + 1);
      LengthStep(s, m, j);
      LengthStep(s, Put(m, i, v), j);
    } else {
      LengthEnd(s, m);
      LengthEnd(s, Put(m, i, v));
    }
  }

  lemma {:induction false} UnknownLength(s: Schema, m: Msg, u: seq<Record>, j: nat)
    requires |s.fields| == |m.slots| && j <= |m.slots|
    ensures |SerializeFrom(s, m.(unknown := u), j)| + |EncodeRecords(m.unknown)|
         == |SerializeFrom(s, m, j)| + |EncodeRecords(u)|
    decreases |m.slots| - j
  {
    hide EncodeSlot;
    if j < |m.slots| {
      UnknownLength(s, m, u, j + 1);
      LengthStep(s, m, j);
      LengthStep(s, m.(unknown := u), j);
    } else {
      LengthEnd(s, m);
      LengthEnd(s, m.(unknown := u));
    }
  }

  lemma {:induction false} EmptyLength(s: Schema, j: nat)
    requires j <= |s.fields|
    ensures SerializeFrom(s, Empty(s), j) == []
    decreases |s.fields| - j
  {
    if j < |s.fields| {
      EmptyLength(s, j + 1);
      assert EncodeSlot(s.fields[j], Empty(s).slots[j]) == [];
    }
  }

  /** A nested message that grew, behind a prefix that grew with it. */
  lemma NestedSlotGrowth(before: nat, after: nat, body: nat)
    requires after <= before + 7 * body && body < TWO_31
    ensures |EncodeVarint(after)| + after <= |EncodeVarint(before)| + before + 5 + 7 * body
  {
    hide Pow128, EncodeVarint;
    VarintMonotone(after, before + 7 * body);
    VarintSubadditive(before, 7 * body);
    VarintBands();
    VarintAtMost(7 * body, 5);
  }

  // ---------------------------------------------------------------- parsing

  lemma TagLength(number: nat, wireType: nat, other: nat)
    requires wireType <= other < 8 && MakeTag(number, other) < TWO_32
    ensures |EncodeTag(number, wireType)| <= |EncodeTag(number, other)| <= 5
  {
    hide Pow128, EncodeVarint;
    VarintMonotone(MakeTag(number, wireType), MakeTag(number, other));
    VarintBands();
    VarintAtMost(MakeTag(number, other), 5);
  }

  /** Reading a field whose tag took `c` bytes adds at most seven times the bytes taken. */
  lemma {:induction false} ReadValueGrowth(f: Field, depth: nat, cur: Value, wireType: nat, c: nat, bs: bytes)
    requires ConformsValue(f.kind, cur) && Accepts(f.kind, wireType) && wireType < 8
    requires MakeTag(f.number, wireType) < TWO_32 && |EncodeTag(f.number, wireType)| <= c
    requires ReadValue(f.kind, depth, cur, wireType, bs).Got?
    ensures var Got(v, rest) := ReadValue(f.kind, depth, cur, wireType, bs);
            |EncodeSlot(f, v)| <= |EncodeSlot(f, cur)| + 7 * (c + |bs| - |rest|)
    decreases |bs|, 1
  {
    TagLength(f.number, WireType(f.kind), wireType);
    match f.kind
    case Scalar(w) => NumberNoLonger(w, bs);
    case Double =>
    case Bytes => ReadNoLonger(bs, ReadVarint32(bs).value);
    case Repeated(w) => RepeatedGrowth(f, depth, cur, wireType, c, bs);
    case Message(s) =>
      EmptyConforms(s);
      EmptyLength(s, 0);
      ReadNestedGrowth(s, depth, Existing(cur, s), bs);
    case RepeatedMessage(s) =>
      EmptyConforms(s);
      EmptyLength(s, 0);
      ReadNestedGrowth(s, depth, Empty(s), bs);
      SubsSnoc(f.number, s, cur.msgs, ReadNested(s, depth, Empty(s), bs).value);
  }

  lemma {:induction false} RepeatedGrowth(f: Field, depth: nat, cur: Value, wireType: nat, c: nat, bs: bytes)
    requires f.kind.Repeated? && cur.Nums? && Accepts(f.kind, wireType) && |EncodeTag(f.number, 0)| <= 5
    requires |EncodeTag(f.number, 0)| <= c && ReadValue(f.kind, depth, cur, wireType, bs).Got?
    ensures var Got(v, rest) := ReadValue(f.kind, depth, cur, wireType, bs);
            |EncodeSlot(f, v)| <= |EncodeSlot(f, cur)| + 7 * (c + |bs| - |rest|)
  {
    var w := f.kind.w;
    if wireType == 0 {
      NumberNoLonger(w, bs);
      NumsSnoc(f.number, cur.ns, FromWire(w, ReadVarint64(bs).value));
    } else {
      var Got(n, rest) := ReadSize(bs);
      var run := Clamp(rest, n);
      PackedGrowth(f.number, w, run);
      NumsConcat(f.number, cur.ns, ReadPacked(w, run).ns);
    }
  }

  /** The body of a nested message, behind at least one byte of length. */
  lemma {:induction false} ReadNestedGrowth(s: Schema, depth: nat, m: Msg, bs: bytes)
    requires Conforms(s, m) && ReadNested(s, depth, m, bs).Got?
    ensures var Got(m', rest) := ReadNested(s, depth, m, bs);
            |EncodeDelimited(Serialize(s, m'))| <= |EncodeDelimited(Serialize(s, m))| + 5 + 7 * (|bs| - |rest| - 1)
    decreases |bs|, 0
  {
    var Got(n, rest) := ReadSize(bs);
    var body := Clamp(rest, n);
    ParseGrowth(s, depth - 1, m, body);
    var m' := Parse(s, depth - 1, m, body).msg;
    NestedSlotGrowth(|Serialize(s, m)|, |Serialize(s, m')|, |body|);
  }

  lemma {:induction false} ReadFieldGrowth(s: Schema, depth: nat, m: Msg, tag: nat, c: nat, bs: bytes)
    requires Conforms(s, m) && tag < TWO_32 && |EncodeVarint(tag)| <= c && ReadField(s, depth, m, tag, bs).Got?
    ensures var Got(m', rest) := ReadField(s, depth, m, tag, bs);
            |Serialize(s, m')| <= |Serialize(s, m)| + 7 * (c + |bs| - |rest|)
    decreases |bs|, 2
  {
    assert MakeTag(tag / 8, tag % 8) == tag;
    if Knows(s, tag) {
      var i := Find(s.fields, tag / 8);
      var v := ReadValue(s.fields[i].kind, depth, m.slots[i], tag % 8, bs).value;
      ReadValueGrowth(s.fields[i], depth, m.slots[i], tag % 8, c, bs);
      PutLength(s, m, i, v, 0);
    } else {
      var Got(p, rest) := SkipField(tag, bs, depth);
      SkipNoLonger(tag, bs, depth);
      RecordLast(m.unknown, Record(tag / 8, p));
      UnknownLength(s, m, m.unknown + [Record(tag / 8, p)], 0);
    }
  }

  /** Whatever bytes are parsed, on top of whatever message, the result is written back in at most
      the length of that message plus seven times the input. */
  lemma {:induction false} ParseGrowth(s: Schema, depth: nat, m: Msg, bs: bytes)
    requires Conforms(s, m) && !Parse(s, depth, m, bs).Failed?
    ensures |Serialize(s, Parse(s, depth, m, bs).msg)| <= |Serialize(s, m)| + 7 * |bs|
    decreases |bs|, 3
  {
    hide Serialize;
    if bs != [] && ReadVarint32(bs).Got? && ReadVarint32(bs).value != 0 {
      var Got(tag, rest) := ReadVarint32(bs);
      ReadNoLonger(bs, tag);
      var Got(m', rest') := ReadField(s, depth, m, tag, rest);
      ReadFieldGrowth(s, depth, m, tag, |bs| - |rest|, rest);
      ReadFieldConforms(s, depth, m, tag, rest);
      ParseGrowth(s, depth, m', rest');
    }
  }

  /** Normal form without a side condition on the output: every input up to 306 MB that parses is
      reproduced by serializing and parsing again. */
  lemma NormalFormOfInput(s: Schema, depth: nat, bs: bytes)
    requires WellFormed(s) && Parse(s, depth, Empty(s), bs).Complete? && 7 * |bs| < TWO_31
    ensures var once := Serialize(s, Parse(s, depth, Empty(s), bs).msg);
            && Parse(s, depth, Empty(s), once) == Parse(s, depth, Empty(s), bs)
            && Serialize(s, Parse(s, depth, Empty(s), once).msg) == once
  {
    EmptyConforms(s);
    EmptyLength(s, 0);
    ParseGrowth(s, depth, Empty(s), bs);
    RT.NormalForm(s, depth, bs);
  }
}

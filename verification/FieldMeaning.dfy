/**
  What a field of each type is, without a schema: where its record goes, what it
  stores there for every input, and what it is written as.  The limits of the types
  are written out as numbers.
 */
module FieldMeaning {
  import opened Wire
  import opened Unknown
  import opened Message
  import opened Sizing
  import opened Writing
  import opened WireFormat
  import S = Schemas

  // --------------------------------------------------- what a record stores

  /** An unsigned number, cut to its width. */
  function StoresUint(m: Msg, i: nat, bs: bytes, modulus: nat): (r: Read<Msg>)
    requires i < |m.slots| && 0 < modulus
  {
    var v := ReadVarint64(bs);
    if v.Bad? then Bad else Got(Put(m, i, Num(v.value % modulus)), v.rest)
  }

  /** The low 32 bits as a signed number. */
  function StoresInt32(m: Msg, i: nat, bs: bytes): (r: Read<Msg>)
    requires i < |m.slots|
  {
    var v := ReadVarint32(bs);
    if v.Bad? then Bad
    else Got(Put(m, i, Num(if v.value < 0x8000_0000 then v.value else v.value - 0x1_0000_0000)), v.rest)
  }

  /** Eight bytes. */
  function StoresDouble(m: Msg, i: nat, bs: bytes): (r: Read<Msg>)
    requires i < |m.slots|
  {
    if |bs| < 8 then Bad else Got(Put(m, i, Raw(bs[..8])), bs[8..])
  }

  /** A length below 2^31 and as many bytes. */
  function StoresBytes(m: Msg, i: nat, bs: bytes): (r: Read<Msg>)
    requires i < |m.slots|
  {
    var n := ReadVarint32(bs);
    if n.Bad? || 0x8000_0000 <= n.value || |n.rest| < n.value then Bad
    else Got(Put(m, i, Raw(n.rest[..n.value])), n.rest[n.value..])
  }

  /** A nested message, read into the one that is there. */
  function StoresMessage(m: Msg, i: nat, bs: bytes, sub: Schema, depth: nat): (r: Read<Msg>)
    requires i < |m.slots|
  {
    var x := ReadNested(sub, depth, if m.slots[i].Sub? then m.slots[i].msg else Empty(sub), bs);
    if x.Bad? then Bad else Got(Put(m, i, Sub(x.value)), x.rest)
  }

  /** One more nested message, read into a new element. */
  function AppendsMessage(m: Msg, i: nat, bs: bytes, sub: Schema, depth: nat): (r: Read<Msg>)
    requires i < |m.slots| && m.slots[i].Subs?
  {
    var x := ReadNested(sub, depth, Empty(sub), bs);
    if x.Bad? then Bad else Got(Put(m, i, Subs(m.slots[i].msgs + [x.value])), x.rest)
  }

  /** One more number. */
  function AppendsUint(m: Msg, i: nat, bs: bytes, modulus: nat): (r: Read<Msg>)
    requires i < |m.slots| && m.slots[i].Nums? && 0 < modulus
  {
    var v := ReadVarint64(bs);
    if v.Bad? then Bad else Got(Put(m, i, Nums(m.slots[i].ns + [v.value % modulus])), v.rest)
  }

  /** The numbers of a packed run; Broken if the run does not end with a whole number. */
  function PackedNumbers(bs: bytes, modulus: nat): (r: Packed)
    requires 0 < modulus
    decreases |bs|
  {
    if bs == [] then Run([])
    else if ReadVarint64(bs).Bad? then Broken
    else
      var later := PackedNumbers(ReadVarint64(bs).rest, modulus);
      if later.Broken? then Broken else Run([ReadVarint64(bs).value % modulus] + later.ns)
  }

  /** All numbers of a packed run, which is the declared length below 2^31 or what there is. */
  function AppendsPacked(m: Msg, i: nat, bs: bytes, modulus: nat): (r: Read<Msg>)
    requires i < |m.slots| && m.slots[i].Nums? && 0 < modulus
  {
    var n := ReadVarint64(bs);
    if n.Bad? || 0x8000_0000 <= n.value then Bad
    else
      var len := if n.value <= |n.rest| then n.value else |n.rest|;
      var run := PackedNumbers(n.rest[..len], modulus);
      if run.Broken? then Bad else Got(Put(m, i, Nums(m.slots[i].ns + run.ns)), n.rest[len..])
  }

  /** A record with a length: the tag, the length modulo 2^32 and the data. */
  function LengthRecord(tag: byte, data: bytes): (r: bytes) {
    [tag] + EncodeVarint(|data| % 0x1_0000_0000) + data
  }

  // -------------------------------------------------------- what a field is

  /** Exactly these tags are known; the record of any other tag goes to the unknown fields. */
  ghost predicate Tags(s: Schema, count: nat, tags: set<nat>) {
    && |s.fields| == count
    && (forall tag: nat :: Knows(s, tag) <==> tag in tags)
    && (forall depth: nat, m: Msg, tag: nat, bs: bytes | |m.slots| == count && tag !in tags ::
          ReadField(s, depth, m, tag, bs)
          == var r := SkipField(tag, bs, depth);
             if r.Bad? then Bad else Got(m.(unknown := m.unknown + [Record(tag / 8, r.value)]), r.rest))
  }

  /** Slot `i` is an unsigned number below `modulus` behind this one-byte tag. */
  ghost predicate UintAt(s: Schema, tag: byte, i: nat, modulus: nat) {
    && i < |s.fields| && 0 < modulus
    && (forall depth: nat, m: Msg, bs: bytes | |m.slots| == |s.fields| ::
          ReadField(s, depth, m, tag, bs) == StoresUint(m, i, bs, modulus))
    && (forall n | 0 <= n < modulus :: EmitSlot(s.fields[i], Num(n)) == [tag] + EncodeVarint(n))
    && EmitSlot(s.fields[i], Absent) == []
  }

  ghost predicate Uint32At(s: Schema, tag: byte, i: nat) { UintAt(s, tag, i, 0x1_0000_0000) }
  ghost predicate Uint64At(s: Schema, tag: byte, i: nat) { UintAt(s, tag, i, 0x1_0000_0000_0000_0000) }

  ghost predicate Int32At(s: Schema, tag: byte, i: nat) {
    && i < |s.fields|
    && (forall depth: nat, m: Msg, bs: bytes | |m.slots| == |s.fields| ::
          ReadField(s, depth, m, tag, bs) == StoresInt32(m, i, bs))
    && (forall n | -0x8000_0000 <= n < 0x8000_0000 ::
          EmitSlot(s.fields[i], Num(n)) == [tag] + EncodeVarint(if n < 0 then n + 0x1_0000_0000_0000_0000 else n))
    && EmitSlot(s.fields[i], Absent) == []
  }

  ghost predicate DoubleAt(s: Schema, tag: byte, i: nat) {
    && i < |s.fields|
    && (forall depth: nat, m: Msg, bs: bytes | |m.slots| == |s.fields| ::
          ReadField(s, depth, m, tag, bs) == StoresDouble(m, i, bs))
    && (forall b: bytes :: EmitSlot(s.fields[i], Raw(b)) == [tag] + b)
    && EmitSlot(s.fields[i], Absent) == []
  }

  ghost predicate BytesAt(s: Schema, tag: byte, i: nat) {
    && i < |s.fields|
    && (forall depth: nat, m: Msg, bs: bytes | |m.slots| == |s.fields| ::
          ReadField(s, depth, m, tag, bs) == StoresBytes(m, i, bs))
    && (forall b: bytes :: EmitSlot(s.fields[i], Raw(b)) == LengthRecord(tag, b))
    && EmitSlot(s.fields[i], Absent) == []
  }

  ghost predicate MessageAt(s: Schema, tag: byte, i: nat, sub: Schema) {
    && i < |s.fields|
    && (forall depth: nat, m: Msg, bs: bytes | |m.slots| == |s.fields| ::
          ReadField(s, depth, m, tag, bs) == StoresMessage(m, i, bs, sub, depth))
    && (forall x: Msg ::
          EmitSlot(s.fields[i], Sub(x)) == LengthRecord(tag, Emit(sub, x)))
    && EmitSlot(s.fields[i], Absent) == []
  }

  ghost predicate MessagesAt(s: Schema, tag: byte, i: nat, sub: Schema) {
    && i < |s.fields|
    && (forall depth: nat, m: Msg, bs: bytes | |m.slots| == |s.fields| && m.slots[i].Subs? ::
          ReadField(s, depth, m, tag, bs) == AppendsMessage(m, i, bs, sub, depth))
    && EmitSlot(s.fields[i], Subs([])) == []
    && (forall x: Msg, xs: seq<Msg> ::
          EmitSlot(s.fields[i], Subs([x] + xs))
          == LengthRecord(tag, Emit(sub, x)) + EmitSlot(s.fields[i], Subs(xs)))
  }

  /** A list of unsigned numbers: read one by one or packed, written one by one. */
  ghost predicate UintsAt(s: Schema, tag: byte, packed: byte, i: nat, modulus: nat) {
    && i < |s.fields| && 0 < modulus
    && (forall depth: nat, m: Msg, bs: bytes | |m.slots| == |s.fields| && m.slots[i].Nums? ::
          ReadField(s, depth, m, tag, bs) == AppendsUint(m, i, bs, modulus))
    && (forall depth: nat, m: Msg, bs: bytes | |m.slots| == |s.fields| && m.slots[i].Nums? ::
          ReadField(s, depth, m, packed, bs) == AppendsPacked(m, i, bs, modulus))
    && EmitSlot(s.fields[i], Nums([])) == []
    && (forall n: int, ns: seq<int> | 0 <= n < modulus ::
          EmitSlot(s.fields[i], Nums([n] + ns)) == [tag] + EncodeVarint(n) + EmitSlot(s.fields[i], Nums(ns)))
  }

  // --------------------------------------------- how a schema meets its table

  lemma KnowsConsecutive(s: Schema, tag: nat)
    requires S.Consecutive(s)
    ensures Knows(s, tag) <==> 1 <= tag / 8 <= |s.fields| && Accepts(s.fields[tag / 8 - 1].kind, tag % 8)
    ensures Knows(s, tag) ==> Find(s.fields, tag / 8) == tag / 8 - 1
  {
    S.FindConsecutive(s, tag / 8);
  }

  /** The known record of field `i` is a read of its slot. */
  lemma ReadAt(s: Schema, i: nat, wireType: nat, depth: nat, m: Msg, bs: bytes)
    requires S.Consecutive(s) && i < |s.fields| == |m.slots| && wireType < 8 && Accepts(s.fields[i].kind, wireType)
    ensures ReadField(s, depth, m, 8 * i + 8 + wireType, bs)
         == var r := ReadValue(s.fields[i].kind, depth, m.slots[i], wireType, bs);
            if r.Bad? then Bad else Got(Put(m, i, r.value), r.rest)
  {
    hide ReadValue, SkipField, Find, Knows;
    KnowsConsecutive(s, 8 * i + 8 + wireType);
  }

  /** A set of tags is the set of known ones if each of them is accepted and no accepted one is missing. */
  lemma TagsAre(s: Schema, tags: set<nat>)
    requires S.Consecutive(s)
    requires forall tag | tag in tags :: 1 <= tag / 8 <= |s.fields| && Accepts(s.fields[tag / 8 - 1].kind, tag % 8)
    requires forall i {:trigger WireType(s.fields[i].kind)} | 0 <= i < |s.fields| ::
               && MakeTag(i + 1, WireType(s.fields[i].kind)) in tags
               && (s.fields[i].kind.Repeated? ==> MakeTag(i + 1, 2) in tags)
    ensures Tags(s, |s.fields|, tags)
  {
    hide SkipField, ReadValue, Knows, Accepts;
    forall tag: nat ensures Knows(s, tag) <==> tag in tags {
      KnowsConsecutive(s, tag);
      if Knows(s, tag) {
        var i := tag / 8 - 1;
        AcceptedTypes(s.fields[i].kind, tag % 8);
        assert tag == MakeTag(i + 1, tag % 8);
      }
    }
  }

  lemma AcceptedTypes(k: Kind, wireType: nat)
    requires Accepts(k, wireType)
    ensures wireType == WireType(k) || (k.Repeated? && wireType == 2)
  {
  }

  /** The same for a class without lists of numbers, from its tags in field order. */
  lemma TagsListed(s: Schema, list: seq<nat>, tags: set<nat>)
    requires S.Consecutive(s) && |list| == |s.fields|
    requires forall i | 0 <= i < |list| ::
               list[i] == MakeTag(i + 1, WireType(s.fields[i].kind)) && !s.fields[i].kind.Repeated?
    requires forall i | 0 <= i < |list| :: list[i] in tags
    requires forall tag | tag in tags :: tag in list
    ensures Tags(s, |s.fields|, tags)
  {
    hide Tags;
    forall tag | tag in tags
      ensures 1 <= tag / 8 <= |s.fields| && Accepts(s.fields[tag / 8 - 1].kind, tag % 8)
    {
      var i :| 0 <= i < |list| && list[i] == tag;
    }
    TagsAre(s, tags);
  }

  // --------------------------------------------------------- required fields

  predicate Present(m: Msg, required: set<nat>) {
    forall i | i in required :: i < |m.slots| && !m.slots[i].Absent?
  }

  /** A message is initialized exactly when these slots are present and the nested messages in those
      slots, where there are any, are initialized as messages of their schemas. */
  ghost predicate Requires(s: Schema, required: set<nat>, nested: map<nat, Schema>) {
    forall m: Msg | |m.slots| == |s.fields| ::
      Initialized(s, m) <==>
        && Present(m, required)
        && forall i | i in nested :: i < |m.slots| && (m.slots[i].Sub? ==> Initialized(nested[i], m.slots[i].msg))
  }

  lemma RequiresAre(s: Schema, required: set<nat>, nested: map<nat, Schema>)
    requires forall i | i in required :: i < |s.fields|
    requires forall i | i in nested :: i < |s.fields|
    requires forall i | 0 <= i < |s.fields| :: s.fields[i].required <==> i in required
    requires forall i | 0 <= i < |s.fields| :: !s.fields[i].kind.RepeatedMessage?
    requires forall i | 0 <= i < |s.fields| :: s.fields[i].kind.Message? <==> i in nested
    requires forall i | i in nested :: s.fields[i].kind == Message(nested[i])
    ensures Requires(s, required, nested)
  {
    forall m: Msg | |m.slots| == |s.fields|
      ensures Initialized(s, m) <==>
                && Present(m, required)
                && forall i | i in nested :: i < |m.slots| && (m.slots[i].Sub? ==> Initialized(nested[i], m.slots[i].msg))
    {
      assert forall i | 0 <= i < |m.slots| ::
        InitializedField(s.fields[i], m.slots[i]) <==>
          && (i in required ==> !m.slots[i].Absent?)
          && (i in nested ==> m.slots[i].Sub? ==> Initialized(nested[i], m.slots[i].msg));
    }
  }

  lemma AbsentWritten(f: Field)
    ensures EmitSlot(f, Absent) == []
  {
  }

  lemma NumberWritten(f: Field, n: int)
    requires f.kind.Scalar? && 1 <= f.number <= 15 && -0x8000_0000 <= n < 0x1_0000_0000_0000_0000
    ensures EmitSlot(f, Num(n))
         == [8 * f.number] + EncodeVarint(if n < 0 then n + 0x1_0000_0000_0000_0000 else n)
  {
    hide EncodeVarint, EncodeTag;
    ShortTag(f.number, 0);
  }

  lemma UintRead(s: Schema, i: nat, modulus: nat, depth: nat, m: Msg, bs: bytes)
    requires S.Consecutive(s) && i < |s.fields| == |m.slots| && s.fields[i].kind in {Scalar(U32), Scalar(U64)}
    requires modulus == if s.fields[i].kind.w == U32 then 0x1_0000_0000 else 0x1_0000_0000_0000_0000
    ensures ReadField(s, depth, m, 8 * i + 8, bs) == StoresUint(m, i, bs, modulus)
  {
    hide ReadVarint64, ReadField;
    ReadAt(s, i, 0, depth, m, bs);
  }

  lemma UintField(s: Schema, tag: byte, i: nat, modulus: nat)
    requires S.Consecutive(s) && i < |s.fields| <= 15 && tag == 8 * i + 8
    requires s.fields[i].kind in {Scalar(U32), Scalar(U64)}
    requires modulus == if s.fields[i].kind.w == U32 then 0x1_0000_0000 else 0x1_0000_0000_0000_0000
    ensures UintAt(s, tag, i, modulus)
  {
    hide EncodeVarint, ReadField, EmitSlot, StoresUint;
    AbsentWritten(s.fields[i]);
    forall depth: nat, m: Msg, bs: bytes | |m.slots| == |s.fields|
      ensures ReadField(s, depth, m, tag, bs) == StoresUint(m, i, bs, modulus)
    {
      UintRead(s, i, modulus, depth, m, bs);
    }
    forall n | 0 <= n < modulus ensures EmitSlot(s.fields[i], Num(n)) == [tag] + EncodeVarint(n) {
      NumberWritten(s.fields[i], n);
    }
  }

  lemma Int32Field(s: Schema, tag: byte, i: nat)
    requires S.Consecutive(s) && i < |s.fields| <= 15 && tag == 8 * i + 8 && s.fields[i].kind == Scalar(I32)
    ensures Int32At(s, tag, i)
  {
    hide EncodeVarint, ReadVarint64, ReadField;
    forall depth: nat, m: Msg, bs: bytes | |m.slots| == |s.fields|
      ensures ReadField(s, depth, m, tag, bs) == StoresInt32(m, i, bs)
    {
      ReadAt(s, i, 0, depth, m, bs);
    }
    forall n | -0x8000_0000 <= n < 0x8000_0000
      ensures EmitSlot(s.fields[i], Num(n)) == [tag] + EncodeVarint(if n < 0 then n + 0x1_0000_0000_0000_0000 else n)
    {
      NumberWritten(s.fields[i], n);
    }
  }

  lemma DoubleField(s: Schema, tag: byte, i: nat)
    requires S.Consecutive(s) && i < |s.fields| <= 15 && tag == 8 * i + 9 && s.fields[i].kind == Double
    ensures DoubleAt(s, tag, i)
  {
    hide ReadField;
    forall depth: nat, m: Msg, bs: bytes | |m.slots| == |s.fields|
      ensures ReadField(s, depth, m, tag, bs) == StoresDouble(m, i, bs)
    {
      ReadAt(s, i, 1, depth, m, bs);
    }
    ShortTag(i + 1, 1);
  }

  lemma BytesWritten(f: Field, b: bytes)
    requires f.kind == Bytes && 1 <= f.number <= 15
    ensures EmitSlot(f, Raw(b)) == LengthRecord(8 * f.number + 2, b)
  {
    hide EncodeVarint, EncodeTag, Emit, EmitSubs, EncodeSlot;
    ShortTag(f.number, 2);
    Join([8 * f.number + 2], EncodeVarint(|b| % 0x1_0000_0000), b);
  }

  lemma BytesRead(s: Schema, i: nat, depth: nat, m: Msg, bs: bytes)
    requires S.Consecutive(s) && i < |s.fields| == |m.slots| && s.fields[i].kind == Bytes
    ensures ReadField(s, depth, m, 8 * i + 10, bs) == StoresBytes(m, i, bs)
  {
    hide ReadVarint32, ReadField;
    ReadAt(s, i, 2, depth, m, bs);
  }

  lemma BytesField(s: Schema, tag: byte, i: nat)
    requires S.Consecutive(s) && i < |s.fields| <= 15 && tag == 8 * i + 10 && s.fields[i].kind == Bytes
    ensures BytesAt(s, tag, i)
  {
    hide EncodeVarint, ReadField, EmitSlot, StoresBytes;
    AbsentWritten(s.fields[i]);
    forall depth: nat, m: Msg, bs: bytes | |m.slots| == |s.fields|
      ensures ReadField(s, depth, m, tag, bs) == StoresBytes(m, i, bs)
    {
      BytesRead(s, i, depth, m, bs);
    }
    forall b: bytes ensures EmitSlot(s.fields[i], Raw(b)) == LengthRecord(tag, b) {
      BytesWritten(s.fields[i], b);
    }
  }

  lemma MessageField(s: Schema, tag: byte, i: nat, sub: Schema)
    requires S.Consecutive(s) && i < |s.fields| <= 15 && tag == 8 * i + 10 && s.fields[i].kind == Message(sub)
    ensures MessageAt(s, tag, i, sub)
  {
    hide EncodeVarint, ReadNested, ReadField, EncodeTag, Emit;
    forall depth: nat, m: Msg, bs: bytes | |m.slots| == |s.fields|
      ensures ReadField(s, depth, m, tag, bs) == StoresMessage(m, i, bs, sub, depth)
    {
      ReadAt(s, i, 2, depth, m, bs);
    }
    ShortTag(i + 1, 2);
    forall x: Msg
      ensures EmitSlot(s.fields[i], Sub(x)) == LengthRecord(tag, Emit(sub, x))
    {
      Join([tag], EncodeVarint(|Emit(sub, x)| % 0x1_0000_0000), Emit(sub, x));
    }
  }

  lemma MessagesField(s: Schema, tag: byte, i: nat, sub: Schema)
    requires S.Consecutive(s) && i < |s.fields| <= 15 && tag == 8 * i + 10 && s.fields[i].kind == RepeatedMessage(sub)
    ensures MessagesAt(s, tag, i, sub)
  {
    hide EncodeVarint, ReadNested, ReadField, EncodeTag, Emit;
    forall depth: nat, m: Msg, bs: bytes | |m.slots| == |s.fields| && m.slots[i].Subs?
      ensures ReadField(s, depth, m, tag, bs) == AppendsMessage(m, i, bs, sub, depth)
    {
      ReadAt(s, i, 2, depth, m, bs);
    }
    ShortTag(i + 1, 2);
    forall x: Msg, xs: seq<Msg>
      ensures EmitSlot(s.fields[i], Subs([x] + xs))
           == LengthRecord(tag, Emit(sub, x)) + EmitSlot(s.fields[i], Subs(xs))
    {
      assert ([x] + xs)[1..] == xs;
      Join([tag], EncodeVarint(|Emit(sub, x)| % 0x1_0000_0000), Emit(sub, x));
    }
  }

  lemma {:induction false} PackedWidth(w: Width, bs: bytes)
    requires w != I32
    ensures ReadPacked(w, bs) == PackedNumbers(bs, if w == U32 then 0x1_0000_0000 else 0x1_0000_0000_0000_0000)
    decreases |bs|
  {
    hide ReadVarint64;
    if bs != [] && ReadVarint64(bs).Got? {
      PackedWidth(w, ReadVarint64(bs).rest);
    }
  }

  lemma PackedRead(s: Schema, i: nat, w: Width, modulus: nat, depth: nat, m: Msg, bs: bytes)
    requires S.Consecutive(s) && i < |s.fields| <= 14 && s.fields[i].kind == Repeated(w) && w != I32
    requires modulus == if w == U32 then 0x1_0000_0000 else 0x1_0000_0000_0000_0000
    requires |m.slots| == |s.fields| && m.slots[i].Nums?
    ensures ReadField(s, depth, m, 8 * i + 10, bs) == AppendsPacked(m, i, bs, modulus)
  {
    hide ReadVarint64, ReadField, PackedNumbers, ReadPacked;
    ReadAt(s, i, 2, depth, m, bs);
    var r := ReadSize(bs);
    if r.Got? {
      var n := if r.value <= |r.rest| then r.value else |r.rest|;
      assert Clamp(r.rest, r.value) == r.rest[..n];
      PackedWidth(w, r.rest[..n]);
    }
  }

  lemma NumsWritten(f: Field, n: int, ns: seq<int>)
    requires f.kind.Repeated? && 1 <= f.number <= 15 && 0 <= n < 0x1_0000_0000_0000_0000
    ensures EmitSlot(f, Nums([n] + ns)) == [8 * f.number] + EncodeVarint(n) + EmitSlot(f, Nums(ns))
  {
    hide EncodeVarint, EncodeTag, EncodeNums;
    NumsHead(f.number, n, ns);
  }

  lemma NumsHead(number: nat, n: int, ns: seq<int>)
    requires 1 <= number <= 15 && 0 <= n < 0x1_0000_0000_0000_0000
    ensures EncodeNums(number, [n] + ns) == [8 * number] + EncodeVarint(n) + EncodeNums(number, ns)
  {
    hide EncodeVarint, EncodeTag;
    var all := [n] + ns;
    ShortTag(number, 0);
    assert all[1..] == ns && all[0] == n;
    assert EncodeNums(number, all) == EncodeTag(number, 0) + EncodeVarint(ToWire(n)) + EncodeNums(number, ns);
    NumbersToWire(n);
  }

  lemma UintsField(s: Schema, tag: byte, packed: byte, i: nat, w: Width, modulus: nat)
    requires S.Consecutive(s) && i < |s.fields| <= 14 && tag == 8 * i + 8 && packed == 8 * i + 10
    requires s.fields[i].kind == Repeated(w) && w != I32
    requires modulus == if w == U32 then 0x1_0000_0000 else 0x1_0000_0000_0000_0000
    ensures UintsAt(s, tag, packed, i, modulus)
  {
    hide EncodeVarint, ReadVarint64, ReadField, AppendsPacked, EncodeTag;
    forall depth: nat, m: Msg, bs: bytes | |m.slots| == |s.fields| && m.slots[i].Nums?
      ensures ReadField(s, depth, m, tag, bs) == AppendsUint(m, i, bs, modulus)
    {
      ReadAt(s, i, 0, depth, m, bs);
    }
    forall depth: nat, m: Msg, bs: bytes | |m.slots| == |s.fields| && m.slots[i].Nums?
      ensures ReadField(s, depth, m, packed, bs) == AppendsPacked(m, i, bs, modulus)
    {
      PackedRead(s, i, w, modulus, depth, m, bs);
    }
    forall n: int, ns: seq<int> | 0 <= n < modulus
      ensures EmitSlot(s.fields[i], Nums([n] + ns)) == [tag] + EncodeVarint(n) + EmitSlot(s.fields[i], Nums(ns))
    {
      NumsWritten(s.fields[i], n, ns);
    }
  }

  // ------------------------------------------------------ records in a parse

  /** One turn of the loop, from the bytes of the tag: a tag that is unreadable or zero ends the
      parse, and a record that cannot be read fails it. */
  lemma {:induction false} OneTurn(s: Schema, depth: nat, m: Msg, q: bytes, bs: bytes)
    requires VarintForm(q)
    ensures var tag := Sum128(q) % 0x1_0000_0000;
            Parse(s, depth, m, q + bs)
            == if 10 < |q| || tag == 0 then Stopped(m)
               else if ReadField(s, depth, m, tag, bs).Bad? then Failed
               else Parse(s, depth, ReadField(s, depth, m, tag, bs).value, ReadField(s, depth, m, tag, bs).rest)
    ensures Parse(s, depth, m, []) == Complete(m)
    ensures bs != [] && Unended(bs, 10) ==> Parse(s, depth, m, bs) == Stopped(m)
  {
    hide Sum128, ReadField, ReadVarint64;
    ReadsForm(q, bs);
    ReadEnds(bs);
  }

  lemma TagByte(tag: byte)
    requires tag < 128
    ensures VarintForm([tag]) && Sum128([tag]) == tag
  {
    FormOne([tag]);
  }

  /** The record of an unsigned field: every varint sets the slot to the number it denotes, cut to
      the width, and a varint that does not end fails the parse. */
  lemma {:induction false} UintRecord(s: Schema, tag: byte, i: nat, modulus: nat, depth: nat, m: Msg, p: bytes, x: bytes)
    requires UintAt(s, tag, i, modulus) && modulus in {0x1_0000_0000, 0x1_0000_0000_0000_0000}
    requires 0 < tag < 128 && |m.slots| == |s.fields| && VarintForm(p)
    ensures Parse(s, depth, m, [tag] + (p + x))
         == if |p| <= 10 then Parse(s, depth, Put(m, i, Num(Sum128(p) % modulus)), x) else Failed
  {
    hide Parse, ReadField, EmitSlot, ReadVarint64, Sum128;
    TagByte(tag);
    OneTurn(s, depth, m, [tag], p + x);
    ReadsForm(p, x);
    CutTo(Sum128(p), modulus);
  }

  lemma CutTo(v: nat, modulus: nat)
    requires modulus in {0x1_0000_0000, 0x1_0000_0000_0000_0000}
    ensures v % 0x1_0000_0000_0000_0000 % modulus == v % modulus
  {
    LowHalf(v);
  }

  /** The record of an int32 field: a varint of `n` modulo 2^32, so also one of `n` modulo 2^64, sets
      the slot to `n`. */
  lemma {:induction false} Int32Record(s: Schema, tag: byte, i: nat, n: int, depth: nat, m: Msg, p: bytes, x: bytes)
    requires Int32At(s, tag, i) && 0 < tag < 128 && |m.slots| == |s.fields| && VarintForm(p)
    requires -0x8000_0000 <= n < 0x8000_0000 && Sum128(p) % 0x1_0000_0000 == n % 0x1_0000_0000
    ensures Parse(s, depth, m, [tag] + (p + x)) == if |p| <= 10 then Parse(s, depth, Put(m, i, Num(n)), x) else Failed
  {
    hide Parse, ReadField, EmitSlot, ReadVarint32, Sum128;
    TagByte(tag);
    OneTurn(s, depth, m, [tag], p + x);
    ReadsForm(p, x);
    if n < 0 {
      assert n % 0x1_0000_0000 == n + 0x1_0000_0000;
    } else {
      assert n % 0x1_0000_0000 == n;
    }
  }

  /** A nested record: a length below 2^31, a step of the budget, and a parse of as many bytes, or of
      what there is, that must end where they end. */
  lemma {:induction false} NestedRecord(s: Schema, depth: nat, m: Msg, p: bytes, x: bytes)
    requires VarintForm(p)
    ensures var n := Sum128(p) % 0x1_0000_0000_0000_0000;
            var len := if n <= |x| then n else |x|;
            ReadNested(s, depth, m, p + x)
            == if 10 < |p| || 0x8000_0000 <= n || depth == 0 then Bad
               else
                 var o := Parse(s, depth - 1, m, x[..len]);
                 if o.Complete? then Got(o.msg, x[len..]) else Bad
  {
    hide Parse, Sum128, ReadSize;
    ReadsForm(p, x);
    assert x[..|x|] == x;
  }

  // ------------------------------------------------------- order of writing

  function Joined(parts: seq<bytes>): (r: bytes) {
    if parts == [] then [] else Joined(parts[..|parts| - 1]) + parts[|parts| - 1]
  }

  function Parts(s: Schema, m: Msg, n: nat): (r: seq<bytes>)
    requires n <= |s.fields| && n <= |m.slots|
  {
    seq(n, i requires 0 <= i < n => EmitSlot(s.fields[i], m.slots[i]))
  }

  lemma PartsSnoc(s: Schema, m: Msg, n: nat)
    requires n < |s.fields| && n < |m.slots|
    ensures Joined(Parts(s, m, n + 1)) == Joined(Parts(s, m, n)) + EmitSlot(s.fields[n], m.slots[n])
  {
    hide EmitSlot;
    assert Parts(s, m, n + 1)[..n] == Parts(s, m, n);
  }

  lemma {:induction false} JoinedThenFrom(s: Schema, m: Msg, n: nat)
    requires |m.slots| == |s.fields| && n <= |s.fields|
    ensures Emit(s, m) == Joined(Parts(s, m, n)) + EmitFrom(s, m, n)
  {
    hide EmitSlot, Parts, Joined;
    if n == 0 {
      NoParts(s, m);
    } else {
      JoinedThenFrom(s, m, n - 1);
      PartsSnoc(s, m, n - 1);
      var a, b, c := Joined(Parts(s, m, n - 1)), EmitSlot(s.fields[n - 1], m.slots[n - 1]), EmitFrom(s, m, n);
      assert EmitFrom(s, m, n - 1) == b + c;
      Join(a, b, c);
    }
  }

  lemma NoParts(s: Schema, m: Msg)
    ensures Joined(Parts(s, m, 0)) == []
  {
  }

  /** A message is written field by field in the order of the numbers, then its unknown fields. */
  lemma {:induction false} WrittenInOrder(s: Schema, m: Msg)
    requires |m.slots| == |s.fields|
    ensures Emit(s, m) == Joined(Parts(s, m, |s.fields|)) + EncodeRecords(m.unknown)
  {
    JoinedThenFrom(s, m, |s.fields|);
  }
}

/**
  Parser and serializer undo each other: every message that the objects can hold
  is read back from its serialization, and every input that parses has a normal
  form that a second pass leaves alone.
 */
module RoundTrip {
  import opened Wire
  import opened Unknown
  import opened Message

  lemma FindField(s: Schema, i: nat)
    requires WellFormed(s) && i < |s.fields|
    ensures Find(s.fields, s.fields[i].number) == i
  {
  }

  /** Every int32, uint32 and uint64 comes back from its wire value. */
  lemma WireValueRoundTrip(w: Width, n: int)
    requires InRange(w, n)
    ensures FromWire(w, ToWire(n)) == n
  {
  }

  lemma LongVarint(v: nat)
    requires 0x8000_0000_0000_0000 <= v < TWO_64
    ensures |EncodeVarint(v)| == 10
  {
    Pow2Words();
    Log2Bounds(v, 63);
    Log2Bounds(v, 64);
    EncodeLengthIsLog(v);
  }

  /** The size calculator's rule for int32. */
  function Int32Size(n: int): (r: nat) {
    if n < 0 then 10 else VarintSize(n)
  }

  /** A negative int32 is sign-extended to exactly ten bytes, and the size calculator agrees for every int32. */
  lemma {:induction false} Int32SizeIsExact(n: int)
    requires InRange(I32, n)
    ensures |EncodeVarint(ToWire(n))| == Int32Size(n)
  {
    if n < 0 {
      assert ToWire(n) == n + TWO_64;
      LongVarint(n + TWO_64);
    } else {
      assert ToWire(n) == n;
      VarintSizeIsExact(n);
    }
  }

  /** One turn of the loop on a known field. */
  lemma StepKnown(s: Schema, depth: nat, m: Msg, i: nat, wireType: nat, payload: bytes)
    requires WellFormed(s) && |m.slots| == |s.fields| && i < |s.fields|
    requires wireType < 8 && Accepts(s.fields[i].kind, wireType)
    ensures var r := ReadValue(s.fields[i].kind, depth, m.slots[i], wireType, payload);
            r.Got? ==> Parse(s, depth, m, EncodeTag(s.fields[i].number, wireType) + payload)
                       == Parse(s, depth, Put(m, i, r.value), r.rest)
  {
    FindField(s, i);
    TagRoundTrip(s.fields[i].number, wireType, payload);
    assert Knows(s, MakeTag(s.fields[i].number, wireType));
  }

  lemma Shift<T>(a: seq<T>, b: seq<T>)
    requires b != []
    ensures a + [b[0]] + b[1..] == a + b
  {
  }

  lemma PutPut(m: Msg, i: nat, v: Value, w: Value)
    requires i < |m.slots|
    ensures Put(Put(m, i, v), i, w) == Put(m, i, w)
  {
  }

  lemma NumsSplit(number: nat, ns: seq<int>, tail: bytes)
    requires ns != []
    ensures EncodeNums(number, ns) + tail
         == EncodeTag(number, 0) + (EncodeVarint(ToWire(ns[0])) + (EncodeNums(number, ns[1..]) + tail))
  {
  }

  lemma SubsSplit(number: nat, sub: Schema, ms: seq<Msg>, tail: bytes)
    requires ms != []
    ensures EncodeSubs(number, sub, ms) + tail
         == EncodeTag(number, 2) + (EncodeDelimited(Serialize(sub, ms[0])) + (EncodeSubs(number, sub, ms[1..]) + tail))
    ensures |Serialize(sub, ms[0])| <= |EncodeSubs(number, sub, ms)|
    ensures |EncodeSubs(number, sub, ms[1..])| <= |EncodeSubs(number, sub, ms)|
  {
  }

  lemma {:induction false} ParseNum(s: Schema, depth: nat, m: Msg, i: nat, ns: seq<int>, n: int, rest: bytes)
    requires WellFormed(s) && |m.slots| == |s.fields| && i < |s.fields| && m.slots[i] == Nums(ns)
    requires s.fields[i].kind.Repeated? && InRange(s.fields[i].kind.w, n)
    ensures Parse(s, depth, m, EncodeTag(s.fields[i].number, 0) + (EncodeVarint(ToWire(n)) + rest))
         == Parse(s, depth, Put(m, i, Nums(ns + [n])), rest)
  {
    VarintRoundTrip(ToWire(n), rest);
    WireValueRoundTrip(s.fields[i].kind.w, n);
    StepKnown(s, depth, m, i, 0, EncodeVarint(ToWire(n)) + rest);
  }

  lemma {:induction false} ParseNums(s: Schema, depth: nat, m: Msg, i: nat, done: seq<int>, ns: seq<int>, tail: bytes)
    requires WellFormed(s) && |m.slots| == |s.fields| && i < |s.fields| && m.slots[i] == Nums(done)
    requires s.fields[i].kind.Repeated? && forall n | n in ns :: InRange(s.fields[i].kind.w, n)
    ensures Parse(s, depth, m, EncodeNums(s.fields[i].number, ns) + tail)
         == Parse(s, depth, Put(m, i, Nums(done + ns)), tail)
    decreases |ns|
  {
    var number := s.fields[i].number;
    if ns == [] {
      assert EncodeNums(number, ns) + tail == tail;
      assert done + ns == done && Put(m, i, Nums(done)) == m;
    } else {
      hide Parse;
      var rest := EncodeNums(number, ns[1..]) + tail;
      NumsSplit(number, ns, tail);
      ParseNum(s, depth, m, i, done, ns[0], rest);
      var m1 := Put(m, i, Nums(done + [ns[0]]));
      assert forall n | n in ns[1..] :: n in ns;
      ParseNums(s, depth, m1, i, done + [ns[0]], ns[1..], tail);
      Shift(done, ns);
      PutPut(m, i, Nums(done + [ns[0]]), Nums(done + ns));
    }
  }

  lemma {:induction false} NestedReads(s: Schema, depth: nat, start: Msg, m: Msg, tail: bytes)
    requires depth > 0 && |Serialize(s, m)| < TWO_31
    requires Parse(s, depth - 1, start, Serialize(s, m)) == Complete(m)
    ensures ReadNested(s, depth, start, EncodeDelimited(Serialize(s, m)) + tail) == Got(m, tail)
  {
    var body := Serialize(s, m);
    assert EncodeDelimited(body) + tail == EncodeVarint(|body|) + (body + tail);
    VarintRoundTrip(|body|, body + tail);
    assert (body + tail)[..|body|] == body && (body + tail)[|body|..] == tail;
  }

  lemma {:induction false} ParseSub(s: Schema, depth: nat, m: Msg, i: nat, ms: seq<Msg>, x: Msg, rest: bytes)
    requires WellFormed(s) && |m.slots| == |s.fields| && i < |s.fields| && m.slots[i] == Subs(ms)
    requires s.fields[i].kind.RepeatedMessage? && depth > 0
    requires |Serialize(s.fields[i].kind.schema, x)| < TWO_31
    requires var sub := s.fields[i].kind.schema;
             Parse(sub, depth - 1, Empty(sub), Serialize(sub, x)) == Complete(x)
    ensures Parse(s, depth, m, EncodeTag(s.fields[i].number, 2)
                               + (EncodeDelimited(Serialize(s.fields[i].kind.schema, x)) + rest))
         == Parse(s, depth, Put(m, i, Subs(ms + [x])), rest)
  {
    var sub := s.fields[i].kind.schema;
    NestedReads(sub, depth, Empty(sub), x, rest);
    StepKnown(s, depth, m, i, 2, EncodeDelimited(Serialize(sub, x)) + rest);
  }

  lemma {:induction false} ParseSubs(s: Schema, depth: nat, m: Msg, i: nat, done: seq<Msg>, ms: seq<Msg>, tail: bytes)
    requires WellFormed(s) && |m.slots| == |s.fields| && i < |s.fields| && m.slots[i] == Subs(done)
    requires s.fields[i].kind.RepeatedMessage?
    requires forall x | x in ms :: depth > 0 && Valid(s.fields[i].kind.schema, depth - 1, x)
    requires |EncodeSubs(s.fields[i].number, s.fields[i].kind.schema, ms)| < TWO_31
    ensures Parse(s, depth, m, EncodeSubs(s.fields[i].number, s.fields[i].kind.schema, ms) + tail)
         == Parse(s, depth, Put(m, i, Subs(done + ms)), tail)
    decreases ms, 0
  {
    hide Parse, Valid, Serialize;
    var number, sub := s.fields[i].number, s.fields[i].kind.schema;
    if ms == [] {
      assert EncodeSubs(number, sub, ms) + tail == tail;
      assert done + ms == done && Put(m, i, Subs(done)) == m;
    } else {
      assert WellFormedKind(s.fields[i].kind) && WellFormed(sub);
      hide EncodeSubs, WellFormed;
      var rest := EncodeSubs(number, sub, ms[1..]) + tail;
      SubsSplit(number, sub, ms, tail);
      assert ms[0] in ms;
      SerializeParses(sub, depth - 1, ms[0]);
      ParseSub(s, depth, m, i, done, ms[0], rest);
      var m1 := Put(m, i, Subs(done + [ms[0]]));
      assert forall x | x in ms[1..] :: x in ms;
      ParseSubs(s, depth, m1, i, done + [ms[0]], ms[1..], tail);
      Shift(done, ms);
      PutPut(m, i, Subs(done + [ms[0]]), Subs(done + ms));
    }
  }

  /** Reading the encoding of one field into its empty slot fills the slot and nothing else. */
  lemma {:induction false} ParseSlot(s: Schema, depth: nat, m: Msg, i: nat, v: Value, tail: bytes)
    requires WellFormed(s) && |m.slots| == |s.fields| && i < |s.fields|
    requires m.slots[i] == Default(s.fields[i].kind) && ValidValue(s.fields[i].kind, depth, v)
    requires |EncodeSlot(s.fields[i], v)| < TWO_31
    ensures Parse(s, depth, m, EncodeSlot(s.fields[i], v) + tail)
         == Parse(s, depth, Put(m, i, v), tail)
    decreases v, 0
  {
    var f := s.fields[i];
    if v.Absent? {
      assert EncodeSlot(f, v) + tail == tail && Put(m, i, v) == m;
    } else {
      match f.kind
      case Scalar(w) =>
        var payload := EncodeVarint(ToWire(v.n)) + tail;
        assert EncodeSlot(f, v) + tail == EncodeTag(f.number, 0) + payload;
        VarintRoundTrip(ToWire(v.n), tail);
        WireValueRoundTrip(w, v.n);
        StepKnown(s, depth, m, i, 0, payload);
      case Double =>
        assert EncodeSlot(f, v) + tail == EncodeTag(f.number, 1) + (v.data + tail);
        TakeAll(v.data, tail);
        StepKnown(s, depth, m, i, 1, v.data + tail);
      case Bytes =>
        var payload := EncodeDelimited(v.data) + tail;
        assert EncodeSlot(f, v) + tail == EncodeTag(f.number, 2) + payload;
        DelimitedRoundTrip(v.data, tail);
        StepKnown(s, depth, m, i, 2, payload);
      case Message(sub) =>
        var payload := EncodeDelimited(Serialize(sub, v.msg)) + tail;
        assert EncodeSlot(f, v) + tail == EncodeTag(f.number, 2) + payload;
        assert WellFormedKind(f.kind);
        SerializeParses(sub, depth - 1, v.msg);
        NestedReads(sub, depth, Empty(sub), v.msg, tail);
        StepKnown(s, depth, m, i, 2, payload);
      case Repeated(w) =>
        ParseNums(s, depth, m, i, [], v.ns, tail);
        assert [] + v.ns == v.ns;
      case RepeatedMessage(sub) =>
        ParseSubs(s, depth, m, i, [], v.msgs, tail);
        assert [] + v.msgs == v.msgs;
    }
  }

  /** One turn of the loop on a field the schema does not know. */
  lemma {:induction false} StepUnknown(s: Schema, depth: nat, m: Msg, r: Record, rest: bytes)
    requires ValidRecord(r, depth) && !Knows(s, MakeTag(r.number, WireTypeOf(r.payload)))
    ensures Parse(s, depth, m, EncodeRecord(r) + rest)
         == Parse(s, depth, m.(unknown := m.unknown + [r]), rest)
  {
    var body := EncodePayload(r.number, r.payload) + rest;
    assert EncodeRecord(r) + rest == EncodeTag(r.number, WireTypeOf(r.payload)) + body;
    TagRoundTrip(r.number, WireTypeOf(r.payload), body);
    SkipFieldInvertsEncode(r, depth, rest);
    var tag := MakeTag(r.number, WireTypeOf(r.payload));
    assert Record(tag / 8, r.payload) == r;
    assert ReadField(s, depth, m, tag, body) == Got(m.(unknown := m.unknown + [r]), rest);
  }

  /** Unknown records are read back into the unknown-field set in order. */
  lemma {:induction false} ParseUnknown(s: Schema, depth: nat, m: Msg, rs: seq<Record>)
    requires ValidRecords(rs, depth)
    requires forall r | r in rs :: !Knows(s, MakeTag(r.number, WireTypeOf(r.payload)))
    ensures Parse(s, depth, m, EncodeRecords(rs)) == Complete(m.(unknown := m.unknown + rs))
    decreases |rs|
  {
    if rs == [] {
      assert m.unknown + rs == m.unknown;
    } else {
      hide Parse;
      assert rs[0] in rs;
      StepUnknown(s, depth, m, rs[0], EncodeRecords(rs[1..]));
      assert forall r | r in rs[1..] :: r in rs;
      ParseUnknown(s, depth, m.(unknown := m.unknown + [rs[0]]), rs[1..]);
      Shift(m.unknown, rs);
    }
  }

  /** The message whose first `i` slots have been read. */
  ghost function Upto(s: Schema, m: Msg, i: nat): Msg
    requires |m.slots| == |s.fields| && i <= |s.fields|
  {
    Msg(m.slots[..i] + Empty(s).slots[i..], [])
  }

  lemma UptoStep(s: Schema, m: Msg, i: nat)
    requires |m.slots| == |s.fields| && i < |s.fields|
    ensures |Upto(s, m, i).slots| == |s.fields| && Upto(s, m, i).slots[i] == Default(s.fields[i].kind)
    ensures Put(Upto(s, m, i), i, m.slots[i]) == Upto(s, m, i + 1)
  {
    assert Put(Upto(s, m, i), i, m.slots[i]).slots == Upto(s, m, i + 1).slots;
  }

  lemma {:induction false} SerializeParsesFrom(s: Schema, depth: nat, m: Msg, i: nat)
    requires WellFormed(s) && Valid(s, depth, m) && i <= |s.fields|
    requires |SerializeFrom(s, m, i)| < TWO_31
    ensures Parse(s, depth, Upto(s, m, i), SerializeFrom(s, m, i)) == Complete(m)
    decreases m, 0, |s.fields| - i
  {
    if i == |s.fields| {
      hide Parse;
      assert Upto(s, m, i).slots == m.slots;
      ParseUnknown(s, depth, Upto(s, m, i), m.unknown);
      assert [] + m.unknown == m.unknown;
    } else {
      UptoStep(s, m, i);
      assert ValidValue(s.fields[i].kind, depth, m.slots[i]);
      var tail := SerializeFrom(s, m, i + 1);
      assert SerializeFrom(s, m, i) == EncodeSlot(s.fields[i], m.slots[i]) + tail;
      hide Parse, Valid, WellFormed, SerializeFrom, EncodeSlot;
      ParseSlot(s, depth, Upto(s, m, i), i, m.slots[i], tail);
      SerializeParsesFrom(s, depth, m, i + 1);
    }
  }

  /** Round trip: a fresh object that parses a serialized message becomes that message. */
  lemma {:induction false} SerializeParses(s: Schema, depth: nat, m: Msg)
    requires WellFormed(s) && Valid(s, depth, m) && |Serialize(s, m)| < TWO_31
    ensures Parse(s, depth, Empty(s), Serialize(s, m)) == Complete(m)
    decreases m, 1
  {
    assert Upto(s, m, 0) == Empty(s) by { assert m.slots[..0] + Empty(s).slots[0..] == Empty(s).slots; }
    SerializeParsesFrom(s, depth, m, 0);
  }

  /** Serialization is injective: distinct messages never share their bytes. */
  lemma SerializeInjective(s: Schema, depth: nat, a: Msg, b: Msg)
    requires WellFormed(s) && Valid(s, depth, a) && Valid(s, depth, b)
    requires |Serialize(s, a)| < TWO_31 && Serialize(s, a) == Serialize(s, b)
    ensures a == b
  {
    SerializeParses(s, depth, a);
    SerializeParses(s, depth, b);
  }

  // -------------------------------------------------------------- normal form

  lemma EmptyValid(s: Schema, depth: nat)
    ensures Valid(s, depth, Empty(s))
  {
  }

  lemma {:induction false} ReadPackedInRange(w: Width, bs: bytes)
    ensures ReadPacked(w, bs).Run? ==> forall n | n in ReadPacked(w, bs).ns :: InRange(w, n)
    decreases |bs|
  {
    if bs != [] && ReadVarint64(bs).Got? {
      ReadPackedInRange(w, ReadVarint64(bs).rest);
    }
  }

  /** Whatever the parser accepts, truncated, repeated or oddly encoded, it leaves a valid message. */
  lemma {:induction false} ParseValid(s: Schema, depth: nat, m: Msg, bs: bytes)
    requires Valid(s, depth, m)
    ensures !Parse(s, depth, m, bs).Failed? ==> Valid(s, depth, Parse(s, depth, m, bs).msg)
    decreases |bs|, 3
  {
    if bs != [] && ReadVarint32(bs).Got? && ReadVarint32(bs).value != 0 {
      var Got(tag, rest) := ReadVarint32(bs);
      ReadFieldValid(s, depth, m, tag, rest);
      if ReadField(s, depth, m, tag, rest).Got? {
        var Got(m', rest') := ReadField(s, depth, m, tag, rest);
        ParseValid(s, depth, m', rest');
      }
    }
  }

  lemma {:induction false} ReadFieldValid(s: Schema, depth: nat, m: Msg, tag: nat, bs: bytes)
    requires Valid(s, depth, m) && tag < TWO_32
    ensures ReadField(s, depth, m, tag, bs).Got? ==> Valid(s, depth, ReadField(s, depth, m, tag, bs).value)
    decreases |bs|, 2
  {
    if Knows(s, tag) {
      var i := Find(s.fields, tag / 8);
      ReadValueValid(s.fields[i].kind, depth, m.slots[i], tag % 8, bs);
    } else if SkipField(tag, bs, depth).Got? {
      SkipFieldValid(tag, bs, depth);
      var p := SkipField(tag, bs, depth).value;
      assert MakeTag(tag / 8, WireTypeOf(p)) == tag;
    }
  }

  lemma {:induction false} ReadValueValid(k: Kind, depth: nat, cur: Value, wireType: nat, bs: bytes)
    requires ValidValue(k, depth, cur)
    ensures ReadValue(k, depth, cur, wireType, bs).Got?
        ==> ValidValue(k, depth, ReadValue(k, depth, cur, wireType, bs).value)
    decreases |bs|, 1
  {
    match k
    case Message(s) =>
      if depth > 0 { EmptyValid(s, depth - 1); ReadNestedValid(s, depth, Existing(cur, s), bs); }
    case RepeatedMessage(s) =>
      if depth > 0 { EmptyValid(s, depth - 1); ReadNestedValid(s, depth, Empty(s), bs); }
    case Repeated(w) =>
      if wireType != 0 && ReadSize(bs).Got? {
        ReadPackedInRange(w, Clamp(ReadSize(bs).rest, ReadSize(bs).value));
      }
    case _ =>
  }

  lemma {:induction false} ReadNestedValid(s: Schema, depth: nat, m: Msg, bs: bytes)
    requires depth > 0 && Valid(s, depth - 1, m)
    ensures ReadNested(s, depth, m, bs).Got? ==> Valid(s, depth - 1, ReadNested(s, depth, m, bs).value)
    decreases |bs|, 0
  {
    if ReadSize(bs).Got? {
      ParseValid(s, depth - 1, m, Clamp(ReadSize(bs).rest, ReadSize(bs).value));
    }
  }

  /** Normal form: for every input that parses, serializing the result and parsing it
      again gives the same message, so re-serializing a second time changes nothing. */
  lemma NormalForm(s: Schema, depth: nat, bs: bytes)
    requires WellFormed(s) && Parse(s, depth, Empty(s), bs).Complete?
    requires |Serialize(s, Parse(s, depth, Empty(s), bs).msg)| < TWO_31
    ensures var once := Serialize(s, Parse(s, depth, Empty(s), bs).msg);
            && Parse(s, depth, Empty(s), once) == Parse(s, depth, Empty(s), bs)
            && Serialize(s, Parse(s, depth, Empty(s), once).msg) == once
  {
    EmptyValid(s, depth);
    ParseValid(s, depth, Empty(s), bs);
    SerializeParses(s, depth, Parse(s, depth, Empty(s), bs).msg);
  }

  /** The messages that survive a round trip are exactly the valid ones: an unknown field
      with a known tag, a value out of range or nesting beyond the budget always breaks it. */
  lemma RoundTripIff(s: Schema, depth: nat, m: Msg)
    requires WellFormed(s) && |Serialize(s, m)| < TWO_31
    ensures Parse(s, depth, Empty(s), Serialize(s, m)) == Complete(m) <==> Valid(s, depth, m)
  {
    if Valid(s, depth, m) {
      SerializeParses(s, depth, m);
    } else {
      EmptyValid(s, depth);
      ParseValid(s, depth, Empty(s), Serialize(s, m));
    }
  }
}

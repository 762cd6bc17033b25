/**
  What the size calculator counts and what the writers emit.  Both cast the length
  of a string or nested message to 32 bits, so they agree on every message.  What the
  cast can spoil is the meaning: a length of 2^32 or more is announced modulo 2^32.
 */
module Sizing {
  import opened Wire
  import opened Unknown
  import opened Message
  import opened Writing
  import G = Growth
  import S = Schemas

  function SubsSize(number: nat, s: Schema, ms: seq<Msg>): (n: nat)
    decreases ms, 0
  {
    if ms == [] then 0
    else |EncodeTag(number, 2)| + DelimitedSize(ByteSize(s, ms[0])) + SubsSize(number, s, ms[1..])
  }

  function SlotSize(f: Field, v: Value): (n: nat)
    decreases v, 0
  {
    match (f.kind, v)
    case (Bytes, Raw(b)) => |EncodeTag(f.number, 2)| + DelimitedSize(|b|)
    case (Message(s), Sub(m)) => |EncodeTag(f.number, 2)| + DelimitedSize(ByteSize(s, m))
    case (RepeatedMessage(s), Subs(ms)) => SubsSize(f.number, s, ms)
    case _ => |EncodeSlot(f, v)|
  }

  function SizeFrom(s: Schema, m: Msg, i: nat): (n: nat)
    decreases m, 0, |m.slots| - i
  {
    if i < |s.fields| && i < |m.slots| then SlotSize(s.fields[i], m.slots[i]) + SizeFrom(s, m, i + 1)
    else |EncodeRecords(m.unknown)|
  }

  /** ByteSizeLong, for every schema at once. */
  function ByteSize(s: Schema, m: Msg): (n: nat)
    decreases m, 1
  {
    SizeFrom(s, m, 0)
  }

  // ---------------------------------------------------------- the writers

  /** Length-delimited data as the writers emit it: the length cast to 32 bits, then all of the data. */
  function EmitDelimited(data: bytes): (r: bytes) {
    EncodeVarint(|data| % TWO_32) + data
  }

  function EmitSubs(number: nat, s: Schema, ms: seq<Msg>): (r: bytes)
    decreases ms, 0
  {
    if ms == [] then []
    else EncodeTag(number, 2) + EmitDelimited(Emit(s, ms[0])) + EmitSubs(number, s, ms[1..])
  }

  function EmitSlot(f: Field, v: Value): (r: bytes)
    decreases v, 0
  {
    match (f.kind, v)
    case (Bytes, Raw(b)) => EncodeTag(f.number, 2) + EmitDelimited(b)
    case (Message(s), Sub(m)) => EncodeTag(f.number, 2) + EmitDelimited(Emit(s, m))
    case (RepeatedMessage(s), Subs(ms)) => EmitSubs(f.number, s, ms)
    case _ => EncodeSlot(f, v)
  }

  function EmitFrom(s: Schema, m: Msg, i: nat): (r: bytes)
    decreases m, 0, |m.slots| - i
  {
    if i < |s.fields| && i < |m.slots| then EmitSlot(s.fields[i], m.slots[i]) + EmitFrom(s, m, i + 1)
    else EncodeRecords(m.unknown)
  }

  /** SerializeWithCachedSizes after ByteSizeLong, for every schema at once. */
  function Emit(s: Schema, m: Msg): (r: bytes)
    decreases m, 1
  {
    EmitFrom(s, m, 0)
  }

  /** A cached size is an int, the size itself exactly below 2^31; it is written as the length cast to
      32 bits, whatever the trip through int did to it. */
  lemma CachedPrefix(n: nat)
    ensures ToCachedSize(n) % 0x1_0000_0000 == n % 0x1_0000_0000
    ensures -0x8000_0000 <= ToCachedSize(n) < 0x8000_0000
    ensures ToCachedSize(n) == n <==> n < 0x8000_0000
  {
  }

  // ------------------------------------------- counted is what is emitted

  lemma DelimitedLength(data: bytes)
    ensures |EmitDelimited(data)| == DelimitedSize(|data|)
  {
    hide EncodeVarint, VarintSize;
    VarintSizeIsExact(|data| % TWO_32);
  }

  /** The size calculator counts exactly the bytes that the writers emit, for every message. */
  lemma {:induction false} EmitLength(s: Schema, m: Msg)
    ensures |Emit(s, m)| == ByteSize(s, m)
    decreases m, 1
  {
    EmitFromLength(s, m, 0);
  }

  lemma {:induction false} EmitFromLength(s: Schema, m: Msg, i: nat)
    ensures |EmitFrom(s, m, i)| == SizeFrom(s, m, i)
    decreases m, 0, |m.slots| - i
  {
    hide EmitSlot, SlotSize;
    if i < |s.fields| && i < |m.slots| {
      EmitSlotLength(s.fields[i], m.slots[i]);
      EmitFromLength(s, m, i + 1);
    }
  }

  lemma {:induction false} EmitSlotLength(f: Field, v: Value)
    ensures |EmitSlot(f, v)| == SlotSize(f, v)
    decreases v, 0
  {
    hide EmitDelimited, DelimitedSize;
    match (f.kind, v)
    case (Bytes, Raw(b)) => DelimitedLength(b);
    case (Message(s), Sub(m)) =>
      EmitLength(s, m);
      DelimitedLength(Emit(s, m));
    case (RepeatedMessage(s), Subs(ms)) => EmitSubsLength(f.number, s, ms);
    case _ =>
  }

  lemma {:induction false} EmitSubsLength(number: nat, s: Schema, ms: seq<Msg>)
    ensures |EmitSubs(number, s, ms)| == SubsSize(number, s, ms)
    decreases ms, 0
  {
    if ms != [] {
      hide Emit, ByteSize, EmitDelimited, DelimitedSize;
      EmitLength(s, ms[0]);
      DelimitedLength(Emit(s, ms[0]));
      EmitSubsLength(number, s, ms[1..]);
    }
  }

  // ------------------------------------------------- when the cast is harmless

  /** A reader of the emitted data is told its length modulo 2^32, which is the length exactly below 2^32. */
  lemma {:induction false} AnnouncedLength(data: bytes, x: bytes)
    ensures ReadVarint32(EmitDelimited(data) + x) == Got(|data| % TWO_32, data + x)
    ensures |data| % TWO_32 == |data| <==> |data| < TWO_32
  {
    hide EncodeVarint, ReadVarint32;
    assert EmitDelimited(data) + x == EncodeVarint(|data| % TWO_32) + (data + x);
    VarintRoundTrip(|data| % TWO_32, data + x);
  }

  /** No string and no nested message, here or below, is 2^32 bytes or longer. */
  predicate Plain(s: Schema, m: Msg)
    decreases m, 1
  {
    forall i | 0 <= i < |s.fields| && i < |m.slots| :: PlainValue(s.fields[i].kind, m.slots[i])
  }

  predicate PlainValue(k: Kind, v: Value)
    decreases v, 0
  {
    match (k, v)
    case (Bytes, Raw(b)) => |b| < TWO_32
    case (Message(s), Sub(m)) => Plain(s, m) && |Serialize(s, m)| < TWO_32
    case (RepeatedMessage(s), Subs(ms)) => forall m | m in ms :: Plain(s, m) && |Serialize(s, m)| < TWO_32
    case _ => true
  }

  lemma {:induction false} VarintInjective(a: nat, b: nat)
    requires EncodeVarint(a) == EncodeVarint(b)
    ensures a == b
  {
    if a >= 128 && b >= 128 {
      assert EncodeVarint(a)[0] == a % 128 + 128 && EncodeVarint(b)[0] == b % 128 + 128;
      assert EncodeVarint(a)[1..] == EncodeVarint(a / 128) && EncodeVarint(b)[1..] == EncodeVarint(b / 128);
      VarintInjective(a / 128, b / 128);
    } else {
      assert EncodeVarint(a)[0] == EncodeVarint(b)[0];
    }
  }

  /** Two concatenations of pieces, none longer on the left, are equal exactly piece by piece. */
  lemma PiecesEqual(a: bytes, b: bytes, c: bytes, d: bytes)
    requires |a| <= |c| && |b| <= |d|
    ensures |a + b| <= |c + d| && (a + b == c + d <==> a == c && b == d)
  {
    if a + b == c + d {
      assert a == (a + b)[..|a|] && c == (c + d)[..|a|];
      assert b == (a + b)[|a|..] && d == (c + d)[|a|..];
    }
  }

  lemma DelimitedIff(x: bytes, y: bytes)
    requires |x| <= |y|
    ensures |EmitDelimited(x)| <= |EncodeDelimited(y)|
    ensures EmitDelimited(x) == EncodeDelimited(y) <==> x == y && |y| < TWO_32
  {
    hide EncodeVarint;
    var low := |x| % TWO_32;
    G.VarintMonotone(low, |y|);
    PiecesEqual(EncodeVarint(low), x, EncodeVarint(|y|), y);
    if EncodeVarint(low) == EncodeVarint(|y|) { VarintInjective(low, |y|); }
  }

  lemma RecordIff(number: nat, x: bytes, y: bytes)
    requires |x| <= |y|
    ensures |EncodeTag(number, 2) + EmitDelimited(x)| <= |EncodeTag(number, 2) + EncodeDelimited(y)|
    ensures EncodeTag(number, 2) + EmitDelimited(x) == EncodeTag(number, 2) + EncodeDelimited(y)
        <==> x == y && |y| < TWO_32
  {
    hide EncodeTag, EmitDelimited, EncodeDelimited;
    DelimitedIff(x, y);
    PiecesEqual(EncodeTag(number, 2), EmitDelimited(x), EncodeTag(number, 2), EncodeDelimited(y));
  }

  /** The writers emit the encoding of the message exactly when no length at any level is 2^32 or more. */
  lemma {:induction false} EmitIff(s: Schema, m: Msg)
    ensures |Emit(s, m)| <= |Serialize(s, m)|
    ensures Emit(s, m) == Serialize(s, m) <==> Plain(s, m)
    decreases m, 1
  {
    hide PlainFrom;
    PlainStep(s, m, 0);
    EmitFromIff(s, m, 0);
  }

  ghost predicate PlainFrom(s: Schema, m: Msg, i: nat) {
    forall j | i <= j < |s.fields| && j < |m.slots| :: PlainValue(s.fields[j].kind, m.slots[j])
  }

  lemma PlainStep(s: Schema, m: Msg, i: nat)
    ensures PlainFrom(s, m, 0) <==> Plain(s, m)
    ensures i < |s.fields| && i < |m.slots| ==>
              (PlainFrom(s, m, i) <==> PlainValue(s.fields[i].kind, m.slots[i]) && PlainFrom(s, m, i + 1))
    ensures !(i < |s.fields| && i < |m.slots|) ==> PlainFrom(s, m, i)
  {
    hide PlainValue;
  }

  lemma {:induction false} EmitFromIff(s: Schema, m: Msg, i: nat)
    ensures |EmitFrom(s, m, i)| <= |SerializeFrom(s, m, i)|
    ensures EmitFrom(s, m, i) == SerializeFrom(s, m, i) <==> PlainFrom(s, m, i)
    decreases m, 0, |m.slots| - i
  {
    hide EmitSlot, EncodeSlot, PlainValue, PlainFrom;
    PlainStep(s, m, i);
    if i < |s.fields| && i < |m.slots| {
      var f, v := s.fields[i], m.slots[i];
      EmitSlotIff(f, v);
      EmitFromIff(s, m, i + 1);
      PiecesEqual(EmitSlot(f, v), EmitFrom(s, m, i + 1), EncodeSlot(f, v), SerializeFrom(s, m, i + 1));
    }
  }

  lemma {:induction false} EmitSlotIff(f: Field, v: Value)
    ensures |EmitSlot(f, v)| <= |EncodeSlot(f, v)|
    ensures EmitSlot(f, v) == EncodeSlot(f, v) <==> PlainValue(f.kind, v)
    decreases v, 0
  {
    hide EmitDelimited, EncodeDelimited, EncodeTag;
    match (f.kind, v)
    case (Bytes, Raw(b)) => RecordIff(f.number, b, b);
    case (Message(s), Sub(m)) =>
      EmitIff(s, m);
      RecordIff(f.number, Emit(s, m), Serialize(s, m));
    case (RepeatedMessage(s), Subs(ms)) => EmitSubsIff(f.number, s, ms);
    case _ =>
  }

  lemma {:induction false} EmitSubsIff(number: nat, s: Schema, ms: seq<Msg>)
    ensures |EmitSubs(number, s, ms)| <= |EncodeSubs(number, s, ms)|
    ensures EmitSubs(number, s, ms) == EncodeSubs(number, s, ms)
        <==> forall m | m in ms :: Plain(s, m) && |Serialize(s, m)| < TWO_32
    decreases ms, 0
  {
    if ms != [] {
      hide Emit, Serialize, Plain, EmitDelimited, EncodeDelimited, EncodeTag;
      var x, y := Emit(s, ms[0]), Serialize(s, ms[0]);
      EmitIff(s, ms[0]);
      RecordIff(number, x, y);
      EmitSubsIff(number, s, ms[1..]);
      PiecesEqual(EncodeTag(number, 2) + EmitDelimited(x), EmitSubs(number, s, ms[1..]),
                  EncodeTag(number, 2) + EncodeDelimited(y), EncodeSubs(number, s, ms[1..]));
      assert forall m | m in ms :: m == ms[0] || m in ms[1..];
      assert ms[0] in ms && forall m | m in ms[1..] :: m in ms;
    }
  }

  /** A message of fewer than 2^32 bytes, counted or encoded, is emitted as its encoding. */
  lemma {:induction false} SmallIsExact(s: Schema, m: Msg)
    requires ByteSize(s, m) < TWO_32 || |Serialize(s, m)| < TWO_32
    ensures Plain(s, m) && Emit(s, m) == Serialize(s, m) && ByteSize(s, m) == |Serialize(s, m)|
    decreases m, 1
  {
    hide Emit, Serialize, ByteSize, Plain;
    EmitLength(s, m);
    EmitIff(s, m);
    SmallIsPlain(s, m);
  }

  lemma {:induction false} SmallIsPlain(s: Schema, m: Msg)
    requires ByteSize(s, m) < TWO_32
    ensures Plain(s, m)
    decreases m, 1
  {
    PlainStep(s, m, 0);
    SmallFrom(s, m, 0);
  }

  lemma {:induction false} SmallFrom(s: Schema, m: Msg, i: nat)
    requires SizeFrom(s, m, i) < TWO_32
    ensures PlainFrom(s, m, i)
    decreases m, 0, |m.slots| - i
  {
    hide SlotSize, PlainValue, PlainFrom;
    PlainStep(s, m, i);
    if i < |s.fields| && i < |m.slots| {
      SmallSlot(s.fields[i], m.slots[i]);
      SmallFrom(s, m, i + 1);
    }
  }

  lemma {:induction false} SmallNested(s: Schema, m: Msg)
    requires ByteSize(s, m) < TWO_32
    ensures Plain(s, m) && |Serialize(s, m)| < TWO_32
    decreases m, 2
  {
    hide Emit, Serialize, ByteSize, Plain;
    SmallIsPlain(s, m);
    EmitLength(s, m);
    EmitIff(s, m);
  }

  lemma {:induction false} SmallSlot(f: Field, v: Value)
    requires SlotSize(f, v) < TWO_32
    ensures PlainValue(f.kind, v)
    decreases v, 0
  {
    match (f.kind, v)
    case (Message(s), Sub(m)) => SmallNested(s, m);
    case (RepeatedMessage(s), Subs(ms)) => SmallSubs(f.number, s, ms);
    case _ =>
  }

  lemma {:induction false} SmallSubs(number: nat, s: Schema, ms: seq<Msg>)
    requires SubsSize(number, s, ms) < TWO_32
    ensures forall m | m in ms :: Plain(s, m) && |Serialize(s, m)| < TWO_32
    decreases ms, 0
  {
    if ms != [] {
      hide Serialize, Plain, ByteSize;
      SmallNested(s, ms[0]);
      SmallSubs(number, s, ms[1..]);
      assert forall m | m in ms :: m == ms[0] || m in ms[1..];
    }
  }

  // ----------------------------------------------------------- a witness

  lemma {:induction false} NothingEmitted(s: Schema, m: Msg, i: nat)
    requires m.unknown == [] && forall j | i <= j < |m.slots| :: m.slots[j] == Absent || m.slots[j] == Nums([])
    ensures EmitFrom(s, m, i) == []
    decreases |m.slots| - i
  {
    if i < |s.fields| && i < |m.slots| { NothingEmitted(s, m, i + 1); }
  }

  /** A TEXT_CONTENT that takes 2^32 bytes: tag, five bytes of length, and the text. */
  ghost function LongText(): (m: Msg) {
    Msg([Raw(seq(TWO_32 - 6, _ => 0)), Nums([])], [])
  }

  lemma LongTextSize()
    ensures |Emit(S.TextContent, LongText())| == ByteSize(S.TextContent, LongText()) == TWO_32
  {
    hide EncodeVarint, VarintSize, DelimitedSize;
    var s, m := S.TextContent, LongText();
    EmitLength(s, m);
    NothingEmitted(s, m, 1);
    EmitFromLength(s, m, 1);
    SizeStep(s, m, 0);
    ShortTag(1, 2);
    LongPrefix();
    assert SlotSize(s.fields[0], m.slots[0]) == 1 + DelimitedSize(TWO_32 - 6);
  }

  lemma LongPrefix()
    ensures DelimitedSize(TWO_32 - 6) == TWO_32 - 1
  {
    hide Pow128, EncodeVarint, VarintSize;
    var n := TWO_32 - 6;
    assert n % TWO_32 == n;
    VarintSizeIsExact(n);
    G.VarintBands();
    G.VarintAtMost(n, 5);
    G.VarintAtLeast(n);
  }

  /** Any TEXT_CONTENT of 2^32 bytes in a msg_content is written behind the length zero. */
  lemma EmittedBehindZero(t: Msg)
    requires |Emit(S.TextContent, t)| == TWO_32
    ensures Emit(S.MsgContent, Put(Empty(S.MsgContent), 0, Sub(t))) == [10, 0] + Emit(S.TextContent, t)
  {
    hide Emit, EncodeTag;
    var s, m, body := S.MsgContent, Put(Empty(S.MsgContent), 0, Sub(t)), Emit(S.TextContent, t);
    NothingEmitted(s, m, 1);
    EmitFirst(s, m);
    ShortTag(1, 2);
    assert EmitDelimited(body) == [0] + body;
    assert EmitSlot(s.fields[0], m.slots[0]) == [10] + ([0] + body);
  }

  lemma EmitFirst(s: Schema, m: Msg)
    requires |s.fields| > 0 && |m.slots| > 0
    ensures Emit(s, m) == EmitSlot(s.fields[0], m.slots[0]) + EmitFrom(s, m, 1)
  {
  }

  /** So every byte of it is there and counted, but the result is not the encoding, and a reader of the
      field is told of an empty text. */
  lemma {:induction false} LongTextAnnouncedEmpty()
    ensures var m := Put(Empty(S.MsgContent), 0, Sub(LongText()));
            && |Emit(S.MsgContent, m)| == ByteSize(S.MsgContent, m) == TWO_32 + 2
            && Emit(S.MsgContent, m) != Serialize(S.MsgContent, m)
            && ReadSize(Emit(S.MsgContent, m)[1..]) == Got(0, Emit(S.TextContent, LongText()))
  {
    hide Emit, ByteSize, LongText;
    var s, m, body := S.MsgContent, Put(Empty(S.MsgContent), 0, Sub(LongText())), Emit(S.TextContent, LongText());
    LongTextSize();
    EmittedBehindZero(LongText());
    EmitLength(s, m);
    EmitIff(s, m);
    LongTextNotPlain();
    assert Emit(s, m)[1..] == [0] + body && ([0] + body)[1..] == body;
  }

  lemma LongTextNotPlain()
    ensures !Plain(S.MsgContent, Put(Empty(S.MsgContent), 0, Sub(LongText())))
  {
    hide Emit, Serialize, ByteSize, LongText;
    var s, m := S.MsgContent, Put(Empty(S.MsgContent), 0, Sub(LongText()));
    LongTextSize();
    EmitIff(S.TextContent, LongText());
    assert !PlainValue(s.fields[0].kind, m.slots[0]);
  }

  // -------------------------------------------------------- single steps

  lemma SizeStep(s: Schema, m: Msg, i: nat)
    requires i < |s.fields| == |m.slots|
    ensures SizeFrom(s, m, i) == SlotSize(s.fields[i], m.slots[i]) + SizeFrom(s, m, i + 1)
  {
  }

  lemma SizeEnd(s: Schema, m: Msg)
    requires |s.fields| == |m.slots|
    ensures SizeFrom(s, m, |s.fields|) == |EncodeRecords(m.unknown)|
  {
  }

  /** Having written field `i`, what remains is what is emitted from `i + 1` on. */
  lemma EmitStep(s: Schema, m: Msg, i: nat, before: bytes, after: bytes, goal: bytes)
    requires i < |s.fields| == |m.slots|
    requires before + EmitFrom(s, m, i) == goal
    requires after == before + EmitSlot(s.fields[i], m.slots[i])
    ensures after + EmitFrom(s, m, i + 1) == goal
  {
    assert EmitFrom(s, m, i) == EmitSlot(s.fields[i], m.slots[i]) + EmitFrom(s, m, i + 1);
  }

  lemma EmitEnd(s: Schema, m: Msg)
    requires |s.fields| == |m.slots|
    ensures EmitFrom(s, m, |s.fields|) == EncodeRecords(m.unknown)
  {
  }

  /** Writing one more repeated message appends its record. */
  lemma {:induction false} EmitSubsSnoc(number: nat, s: Schema, ms: seq<Msg>, m: Msg)
    ensures EmitSubs(number, s, ms + [m])
         == EmitSubs(number, s, ms) + (EncodeTag(number, 2) + EmitDelimited(Emit(s, m)))
    decreases |ms|
  {
    hide Emit, EmitDelimited;
    if ms == [] {
      assert ms + [m] == [m] && [m][1..] == [];
    } else {
      assert (ms + [m])[1..] == ms[1..] + [m];
      EmitSubsSnoc(number, s, ms[1..], m);
    }
  }

  lemma NothingCounted(number: nat, s: Schema)
    ensures SubsSize(number, s, []) == 0 && EmitSubs(number, s, []) == []
  {
  }

  /** Counting one more repeated message. */
  lemma {:induction false} SubsSizeSnoc(number: nat, s: Schema, ms: seq<Msg>, m: Msg)
    ensures SubsSize(number, s, ms + [m])
         == SubsSize(number, s, ms) + |EncodeTag(number, 2)| + DelimitedSize(ByteSize(s, m))
    decreases |ms|
  {
    hide ByteSize;
    if ms == [] {
      assert ms + [m] == [m] && [m][1..] == [];
    } else {
      assert (ms + [m])[1..] == ms[1..] + [m];
      SubsSizeSnoc(number, s, ms[1..], m);
    }
  }

  /** No element counts for more than the list it is in. */
  lemma {:induction false} SubSizeWithin(number: nat, s: Schema, ms: seq<Msg>, i: nat)
    requires i < |ms|
    ensures ByteSize(s, ms[i]) < SubsSize(number, s, ms)
    decreases i
  {
    hide ByteSize;
    if i > 0 {
      SubSizeWithin(number, s, ms[1..], i - 1);
    }
  }
}

/**
  Unknown fields.  A generated parser hands every tag it does not recognise to
  SkipField, which stores the field in the message's unknown-field set; the
  serializers write that set back after the known fields.
 */
module Unknown {
  import opened Wire

  datatype Payload =
    | Varint(v: nat)
    | Fixed64(b: bytes)
    | Delimited(data: bytes)
    | Group(items: seq<Record>)
    | Fixed32(b: bytes)

  datatype Record = Record(number: nat, payload: Payload)

  function WireTypeOf(p: Payload): (t: nat)
    ensures t < 8 && t != 4
  {
    match p
    case Varint(_) => 0
    case Fixed64(_) => 1
    case Delimited(_) => 2
    case Group(_) => 3
    case Fixed32(_) => 5
  }

  function MakeTag(number: nat, wireType: nat): (tag: nat)
    requires wireType < 8
    ensures tag / 8 == number && tag % 8 == wireType
  {
    number * 8 + wireType
  }

  function EncodeTag(number: nat, wireType: nat): (r: bytes)
    requires wireType < 8
    ensures 1 <= |r|
  {
    EncodeVarint(MakeTag(number, wireType))
  }

  function EncodeDelimited(data: bytes): (r: bytes)
    ensures |r| >= 1 + |data|
  {
    EncodeVarint(|data|) + data
  }

  function EncodePayload(number: nat, p: Payload): (r: bytes)
    decreases p, 1
  {
    match p
    case Varint(v) => EncodeVarint(v)
    case Fixed64(b) => b
    case Delimited(data) => EncodeDelimited(data)
    case Group(items) => EncodeRecords(items) + EncodeTag(number, 4)
    case Fixed32(b) => b
  }

  function EncodeRecord(r: Record): (out: bytes)
    ensures 1 <= |out|
    decreases r, 2
  {
    EncodeTag(r.number, WireTypeOf(r.payload)) + EncodePayload(r.number, r.payload)
  }

  function EncodeRecords(rs: seq<Record>): (out: bytes)
    ensures |rs| <= |out|
    decreases rs, 0
  {
    if rs == [] then [] else EncodeRecord(rs[0]) + EncodeRecords(rs[1..])
  }

  /** What the unknown-field set can hold: in-range numbers and values, groups nested at most `depth` deep. */
  predicate ValidPayload(p: Payload, depth: nat)
    decreases p, 1
  {
    match p
    case Varint(v) => v < TWO_64
    case Fixed64(b) => |b| == 8
    case Delimited(data) => |data| < TWO_31
    case Group(items) => depth > 0 && ValidRecords(items, depth - 1)
    case Fixed32(b) => |b| == 4
  }

  predicate ValidRecord(r: Record, depth: nat)
    decreases r, 2
  {
    1 <= r.number <= MAX_FIELD_NUMBER && ValidPayload(r.payload, depth)
  }

  predicate ValidRecords(rs: seq<Record>, depth: nat)
    decreases rs, 0
  {
    forall r | r in rs :: ValidRecord(r, depth)
  }

  // ---------------------------------------------------------------- reading

  function Take(bs: bytes, n: nat): (r: Read<bytes>)
    ensures r.Got? ==> |r.value| == n && |r.value| + |r.rest| == |bs|
    ensures r.Got? <==> n <= |bs|
  {
    if n <= |bs| then Got(bs[..n], bs[n..]) else Bad
  }

  /** ReadBytes: the length is truncated to 32 bits, must fit an int, and must be available in full. */
  function ReadDelimited(bs: bytes): (r: Read<bytes>)
    ensures r.Got? ==> |r.value| < TWO_31 && |r.rest| < |bs|
  {
    match ReadVarint32(bs)
    case Bad => Bad
    case Got(n, rest) => if n < TWO_31 then Take(rest, n) else Bad
  }

  /** Reads the value of an unknown field whose tag has been consumed. */
  function SkipField(tag: nat, bs: bytes, depth: nat): (r: Read<Payload>)
    ensures r.Got? ==> 1 <= tag / 8 && WireTypeOf(r.value) == tag % 8 && |r.rest| < |bs|
    decreases |bs|, 1
  {
    var number, wireType := tag / 8, tag % 8;
    if number == 0 then Bad
    else if wireType == 0 then
      match ReadVarint64(bs) { case Bad => Bad case Got(v, rest) => Got(Varint(v), rest) }
    else if wireType == 1 then
      match Take(bs, 8) { case Bad => Bad case Got(b, rest) => Got(Fixed64(b), rest) }
    else if wireType == 2 then
      match ReadDelimited(bs) { case Bad => Bad case Got(b, rest) => Got(Delimited(b), rest) }
    else if wireType == 3 then
      if depth == 0 then Bad
      else match SkipGroup(number, bs, depth - 1) { case Bad => Bad case Got(rs, rest) => Got(Group(rs), rest) }
    else if wireType == 5 then
      match Take(bs, 4) { case Bad => Bad case Got(b, rest) => Got(Fixed32(b), rest) }
    else Bad
  }

  /** Reads the fields of an unknown group up to and including its own end-group tag. */
  function SkipGroup(number: nat, bs: bytes, depth: nat): (r: Read<seq<Record>>)
    ensures r.Got? ==> |r.rest| < |bs|
    decreases |bs|, 0
  {
    match ReadVarint32(bs)
    case Bad => Bad
    case Got(tag, rest) =>
      if tag == 0 then Bad
      else if tag % 8 == 4 then (if tag == MakeTag(number, 4) then Got([], rest) else Bad)
      else match SkipField(tag, rest, depth)
        case Bad => Bad
        case Got(p, rest') =>
          match SkipGroup(number, rest', depth)
          case Bad => Bad
          case Got(rs, rest'') => Got([Record(tag / 8, p)] + rs, rest'')
  }

  // ----------------------------------------------------------------- lemmas

  lemma TagRoundTrip(number: nat, wireType: nat, x: bytes)
    requires 1 <= number <= MAX_FIELD_NUMBER && wireType < 8
    ensures ReadVarint32(EncodeTag(number, wireType) + x) == Got(MakeTag(number, wireType), x)
  {
    VarintRoundTrip(MakeTag(number, wireType), x);
  }

  lemma DelimitedRoundTrip(data: bytes, x: bytes)
    requires |data| < TWO_31
    ensures ReadDelimited(EncodeDelimited(data) + x) == Got(data, x)
  {
    assert EncodeDelimited(data) + x == EncodeVarint(|data|) + (data + x);
    VarintRoundTrip(|data|, data + x);
  }

  /** An unknown field is read back from its encoding, whatever follows it. */
  lemma {:induction false} SkipFieldInvertsEncode(r: Record, depth: nat, x: bytes)
    requires ValidRecord(r, depth)
    ensures SkipField(MakeTag(r.number, WireTypeOf(r.payload)), EncodePayload(r.number, r.payload) + x, depth)
            == Got(r.payload, x)
    decreases r, 1
  {
    match r.payload
    case Varint(v) => VarintRoundTrip(v, x);
    case Fixed64(b) => TakeAll(b, x);
    case Delimited(data) => DelimitedRoundTrip(data, x);
    case Group(items) =>
      var tail := EncodeTag(r.number, 4) + x;
      assert EncodePayload(r.number, r.payload) + x == EncodeRecords(items) + tail;
      SkipGroupInvertsEncode(r.number, items, depth - 1, x);
    case Fixed32(b) => TakeAll(b, x);
  }

  lemma {:induction false} SkipGroupInvertsEncode(number: nat, rs: seq<Record>, depth: nat, x: bytes)
    requires 1 <= number <= MAX_FIELD_NUMBER && ValidRecords(rs, depth)
    ensures SkipGroup(number, EncodeRecords(rs) + (EncodeTag(number, 4) + x), depth) == Got(rs, x)
    decreases rs, 0
  {
    var tail := EncodeTag(number, 4) + x;
    if rs == [] {
      assert EncodeRecords(rs) + tail == tail;
      TagRoundTrip(number, 4, x);
    } else {
      var rest := EncodeRecords(rs[1..]) + tail;
      assert ValidRecord(rs[0], depth);
      RecordsSplit(rs, tail);
      TagRoundTrip(rs[0].number, WireTypeOf(rs[0].payload), EncodePayload(rs[0].number, rs[0].payload) + rest);
      SkipFieldInvertsEncode(rs[0], depth, rest);
      SkipGroupInvertsEncode(number, rs[1..], depth, x);
      assert [rs[0]] + rs[1..] == rs;
    }
  }

  lemma RecordsSplit(rs: seq<Record>, tail: bytes)
    requires rs != []
    ensures EncodeRecords(rs) + tail
            == EncodeTag(rs[0].number, WireTypeOf(rs[0].payload))
               + (EncodePayload(rs[0].number, rs[0].payload) + (EncodeRecords(rs[1..]) + tail))
  {
  }

  lemma TakeAll(b: bytes, x: bytes)
    ensures Take(b + x, |b|) == Got(b, x)
  {
    assert (b + x)[..|b|] == b && (b + x)[|b|..] == x;
  }

  lemma DelimitedExtend(bs: bytes, x: bytes)
    requires ReadDelimited(bs).Got?
    ensures ReadDelimited(bs + x) == Got(ReadDelimited(bs).value, ReadDelimited(bs).rest + x)
  {
    VarintExtend(bs, x);
    TakeExtend(ReadVarint32(bs).rest, ReadVarint32(bs).value, x);
  }

  lemma TakeExtend(bs: bytes, n: nat, x: bytes)
    requires n <= |bs|
    ensures Take(bs + x, n) == Got(Take(bs, n).value, Take(bs, n).rest + x)
  {
    assert (bs + x)[..n] == bs[..n];
    assert (bs + x)[n..] == bs[n..] + x;
  }

  /** An unknown field that was read is read the same when more bytes follow. */
  lemma {:induction false} SkipFieldExtend(tag: nat, bs: bytes, depth: nat, x: bytes)
    requires SkipField(tag, bs, depth).Got?
    ensures SkipField(tag, bs + x, depth) == Got(SkipField(tag, bs, depth).value, SkipField(tag, bs, depth).rest + x)
    decreases |bs|, 1
  {
    var wireType := tag % 8;
    if wireType == 0 {
      VarintExtend(bs, x);
    } else if wireType == 1 {
      TakeExtend(bs, 8, x);
    } else if wireType == 2 {
      DelimitedExtend(bs, x);
    } else if wireType == 3 {
      SkipGroupExtend(tag / 8, bs, depth - 1, x);
    } else {
      TakeExtend(bs, 4, x);
    }
  }

  lemma {:induction false} SkipGroupExtend(number: nat, bs: bytes, depth: nat, x: bytes)
    requires SkipGroup(number, bs, depth).Got?
    ensures SkipGroup(number, bs + x, depth)
            == Got(SkipGroup(number, bs, depth).value, SkipGroup(number, bs, depth).rest + x)
    decreases |bs|, 0
  {
    VarintExtend(bs, x);
    var Got(tag, rest) := ReadVarint32(bs);
    if tag % 8 != 4 {
      SkipFieldExtend(tag, rest, depth, x);
      SkipGroupExtend(number, SkipField(tag, rest, depth).rest, depth, x);
    }
  }

  /** Whatever SkipField stores is a value the unknown-field set can hold. */
  lemma {:induction false} SkipFieldValid(tag: nat, bs: bytes, depth: nat)
    requires tag < TWO_32
    ensures SkipField(tag, bs, depth).Got? ==> ValidRecord(Record(tag / 8, SkipField(tag, bs, depth).value), depth)
    decreases |bs|, 1
  {
    if tag % 8 == 3 && depth > 0 {
      SkipGroupValid(tag / 8, bs, depth - 1);
    }
  }

  lemma {:induction false} SkipGroupValid(number: nat, bs: bytes, depth: nat)
    ensures SkipGroup(number, bs, depth).Got? ==> ValidRecords(SkipGroup(number, bs, depth).value, depth)
    decreases |bs|, 0
  {
    if SkipGroup(number, bs, depth).Got? {
      var Got(tag, rest) := ReadVarint32(bs);
      if tag % 8 != 4 {
        SkipFieldValid(tag, rest, depth);
        SkipGroupValid(number, SkipField(tag, rest, depth).rest, depth);
      }
    }
  }

  lemma {:induction false} EncodeRecordsConcat(a: seq<Record>, b: seq<Record>)
    ensures EncodeRecords(a + b) == EncodeRecords(a) + EncodeRecords(b)
  {
    if a == [] {
      assert a + b == b;
    } else {
      assert (a + b)[0] == a[0] && (a + b)[1..] == a[1..] + b;
      EncodeRecordsConcat(a[1..], b);
    }
  }
}

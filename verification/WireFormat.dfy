/**
  The wire format, said once more from the outside: what bytes stand for which
  numbers, with the limits of the format written out as numbers.  Everything the
  readers and writers of the model do with numbers, lengths and unknown fields is
  settled here against these definitions.
 */
module WireFormat {
  import opened Wire
  import opened Unknown
  import opened Message

  // ---------------------------------------------------------------- varints

  /** The bytes of a varint: the top bit of every byte but the last is set. */
  predicate VarintForm(p: bytes) {
    1 <= |p| && p[|p| - 1] < 128 && forall i | 0 <= i < |p| - 1 :: 128 <= p[i]
  }

  /** No byte is wasted on leading zeros. */
  predicate Shortest(p: bytes) { |p| > 1 ==> p[|p| - 1] != 0 }

  /** The number the bytes denote: byte `i` counts for its low seven bits times 128 to the power `i`. */
  function Sum128(p: bytes): (n: nat) {
    if p == [] then 0 else Sum128(p[..|p| - 1]) + p[|p| - 1] % 128 * Pow128(|p| - 1)
  }

  lemma {:induction false} SumCons(b: byte, p: bytes)
    ensures Sum128([b] + p) == b % 128 + 128 * Sum128(p)
    decreases |p|
  {
    var q := [b] + p;
    if p == [] {
      assert q[..0] == [] && Pow128(0) == 1;
    } else {
      var k, low := |p|, p[|p| - 1] % 128;
      assert q[..k] == [b] + p[..k - 1] && q[k] == p[k - 1];
      SumCons(b, p[..k - 1]);
      assert Pow128(k) == 128 * Pow128(k - 1);
      Scale(low, Pow128(k - 1));
    }
  }

  lemma Scale(a: nat, b: nat)
    ensures a * (128 * b) == 128 * (a * b)
  {
  }

  lemma FormTail(p: bytes)
    requires VarintForm(p) && 1 < |p|
    ensures VarintForm(p[1..]) && Sum128(p) == p[0] - 128 + 128 * Sum128(p[1..])
  {
    hide Sum128;
    assert p == [p[0]] + p[1..];
    SumCons(p[0], p[1..]);
  }

  lemma FormOne(p: bytes)
    requires VarintForm(p) && |p| == 1
    ensures Sum128(p) == p[0]
  {
    assert p == [p[0]] + [];
    SumCons(p[0], []);
  }

  /** The writer of varints gives the shortest bytes that denote the number. */
  lemma {:induction false} EncodeDenotes(n: nat)
    ensures VarintForm(EncodeVarint(n)) && Shortest(EncodeVarint(n)) && Sum128(EncodeVarint(n)) == n
  {
    hide Sum128, VarintForm, Shortest;
    if n < 128 {
      FormShort(n);
    } else {
      EncodeDenotes(n / 128);
      FormCons(n % 128 + 128, EncodeVarint(n / 128));
    }
  }

  lemma FormShort(n: byte)
    requires n < 128
    ensures VarintForm([n]) && Shortest([n]) && Sum128([n]) == n
  {
    hide Sum128;
    FormOne([n]);
  }

  lemma FormCons(b: byte, p: bytes)
    requires 128 <= b && VarintForm(p) && Shortest(p) && p != [0]
    ensures VarintForm([b] + p) && Shortest([b] + p) && Sum128([b] + p) == b - 128 + 128 * Sum128(p)
  {
    hide Sum128;
    SumCons(b, p);
  }

  lemma {:induction false} SumPositive(p: bytes)
    requires VarintForm(p) && Shortest(p) && 1 < |p|
    ensures 128 <= Sum128(p)
  {
    FormTail(p);
    if |p| == 2 { FormOne(p[1..]); } else { SumPositive(p[1..]); }
  }

  /** And it is the only way: each number has one shortest form. */
  lemma {:induction false} EncodeIff(p: bytes, n: nat)
    ensures p == EncodeVarint(n) <==> VarintForm(p) && Shortest(p) && Sum128(p) == n
    decreases n
  {
    EncodeDenotes(n);
    if VarintForm(p) && Shortest(p) && Sum128(p) == n {
      if |p| == 1 {
        FormOne(p);
        assert p == [p[0]];
      } else {
        FormTail(p);
        SumPositive(p);
        EncodeIff(p[1..], n / 128);
        assert p == [p[0]] + p[1..];
      }
    }
  }

  /** The first `limit` bytes, as far as there are any, all announce another one. */
  predicate Unended(bs: bytes, limit: nat) {
    forall i | 0 <= i < |bs| && i < limit :: 128 <= bs[i]
  }

  lemma {:induction false} GroupsOfForm(p: bytes, x: bytes, limit: nat)
    requires VarintForm(p)
    ensures ReadGroups(p + x, limit) == if |p| <= limit then Got(Sum128(p), x) else Bad
  {
    var bs := p + x;
    if |p| == 1 {
      FormOne(p);
      assert bs[1..] == x;
    } else if limit > 0 {
      FormTail(p);
      assert bs[1..] == p[1..] + x;
      GroupsOfForm(p[1..], x, limit - 1);
    }
  }

  /** Every varint of up to ten bytes is read as the number it denotes, cut to the reader's width;
      an eleventh byte is never read; a size of 2^31 or more is refused. */
  lemma {:induction false} ReadsForm(p: bytes, x: bytes)
    requires VarintForm(p)
    ensures ReadVarint64(p + x) == if |p| <= 10 then Got(Sum128(p) % 0x1_0000_0000_0000_0000, x) else Bad
    ensures ReadVarint32(p + x) == if |p| <= 10 then Got(Sum128(p) % 0x1_0000_0000, x) else Bad
    ensures ReadSize(p + x)
         == if |p| <= 10 && Sum128(p) % 0x1_0000_0000_0000_0000 < 0x8000_0000
            then Got(Sum128(p) % 0x1_0000_0000_0000_0000, x) else Bad
  {
    hide Sum128, VarintForm, ReadGroups;
    GroupsOfForm(p, x, 10);
    LowHalf(Sum128(p));
  }

  lemma LowHalf(n: nat)
    ensures n % 0x1_0000_0000_0000_0000 % 0x1_0000_0000 == n % 0x1_0000_0000
  {
    var q := n / 0x1_0000_0000_0000_0000;
    var r := n % 0x1_0000_0000_0000_0000;
    assert n == 0x1_0000_0000 * (0x1_0000_0000 * q) + r;
    SameLow(0x1_0000_0000 * q, r);
  }

  lemma SameLow(k: nat, r: nat)
    ensures (0x1_0000_0000 * k + r) % 0x1_0000_0000 == r % 0x1_0000_0000
  {
  }

  lemma {:induction false} GroupsEnd(bs: bytes, limit: nat)
    ensures ReadGroups(bs, limit).Bad? <==> Unended(bs, limit)
    ensures ReadGroups(bs, limit).Got? ==>
              var k := |bs| - |ReadGroups(bs, limit).rest|;
              1 <= k <= limit && VarintForm(bs[..k]) && ReadGroups(bs, limit).rest == bs[k..]
  {
    if bs != [] && limit > 0 {
      if bs[0] >= 128 {
        GroupsEnd(bs[1..], limit - 1);
        assert forall i | 1 <= i < |bs| :: bs[i] == bs[1..][i - 1];
        if ReadGroups(bs, limit).Got? {
          var k := |bs| - |ReadGroups(bs, limit).rest|;
          assert bs[..k] == [bs[0]] + bs[1..][..k - 1] && bs[k..] == bs[1..][k - 1..];
        }
      }
    }
  }

  /** A read fails exactly when neither of the first ten bytes ends the number; otherwise it takes
      one to ten bytes, a varint, and yields what they denote modulo 2^64. */
  lemma {:induction false} ReadEnds(bs: bytes)
    ensures ReadVarint64(bs).Bad? <==> Unended(bs, 10)
    ensures ReadVarint64(bs).Got? ==>
              var k := |bs| - |ReadVarint64(bs).rest|;
              && 1 <= k <= 10 && VarintForm(bs[..k])
              && ReadVarint64(bs) == Got(Sum128(bs[..k]) % 0x1_0000_0000_0000_0000, bs[k..])
  {
    hide Sum128, ReadGroups;
    GroupsEnd(bs, 10);
    if ReadVarint64(bs).Got? {
      var k := |bs| - |ReadVarint64(bs).rest|;
      assert bs == bs[..k] + bs[k..];
      ReadsForm(bs[..k], bs[k..]);
    }
  }

  // ---------------------------------------------------------------- numbers

  /** Unsigned numbers are written as they are, negative ones with 2^64 added, so in ten bytes. */
  lemma NumbersToWire(n: int)
    ensures 0 <= n < 0x1_0000_0000_0000_0000 ==> ToWire(n) == n
    ensures -0x8000_0000 <= n < 0 ==> ToWire(n) == n + 0x1_0000_0000_0000_0000
  {
  }

  /** uint64 takes what was read, uint32 its low half, int32 its low half as a signed number. */
  lemma NumbersFromWire(v: nat)
    ensures FromWire(U64, v) == v
    ensures FromWire(U32, v) == v % 0x1_0000_0000
    ensures -0x8000_0000 <= FromWire(I32, v) < 0x8000_0000
    ensures FromWire(I32, v) % 0x1_0000_0000 == v % 0x1_0000_0000
  {
  }

  /** The bytes of a written number denote it: itself if it is not negative, modulo 2^64 if it is. */
  lemma {:induction false} WrittenNumber(n: int)
    requires -0x8000_0000 <= n < 0x1_0000_0000_0000_0000
    ensures var p := EncodeVarint(ToWire(n));
            VarintForm(p) && Shortest(p) && Sum128(p) == if n < 0 then n + 0x1_0000_0000_0000_0000 else n
  {
    hide EncodeVarint, ToWire, VarintForm, Sum128;
    NumbersToWire(n);
    EncodeDenotes(ToWire(n));
  }

  // ------------------------------------------------- lengths and unknown fields

  /** A string: its length modulo 2^32, which must be below 2^31 and be there in full. */
  lemma {:induction false} ReadsDelimited(p: bytes, x: bytes)
    requires VarintForm(p)
    ensures var n := Sum128(p) % 0x1_0000_0000;
            ReadDelimited(p + x)
            == if |p| <= 10 && n < 0x8000_0000 && n <= |x| then Got(x[..n], x[n..]) else Bad
  {
    hide Sum128, VarintForm, ReadVarint32;
    ReadsForm(p, x);
  }

  /** An unknown field by its wire type: a varint, eight bytes, a string, a group, four bytes. */
  lemma {:induction false} SkipsByWireType(number: nat, p: bytes, x: bytes, depth: nat)
    requires 1 <= number && VarintForm(p) && |p| <= 10
    ensures SkipField(8 * number, p + x, depth) == Got(Varint(Sum128(p) % 0x1_0000_0000_0000_0000), x)
    ensures SkipField(8 * number + 1, x, depth) == if 8 <= |x| then Got(Fixed64(x[..8]), x[8..]) else Bad
    ensures var n := Sum128(p) % 0x1_0000_0000;
            SkipField(8 * number + 2, p + x, depth)
            == if n < 0x8000_0000 && n <= |x| then Got(Delimited(x[..n]), x[n..]) else Bad
    ensures SkipField(8 * number + 5, x, depth) == if 4 <= |x| then Got(Fixed32(x[..4]), x[4..]) else Bad
  {
    hide Sum128, VarintForm, SkipField;
    SkipsVarint(number, p, x, depth);
    SkipsDelimited(number, p, x, depth);
    SkipsFixed(number, x, depth);
  }

  lemma SkipsVarint(number: nat, p: bytes, x: bytes, depth: nat)
    requires 1 <= number && VarintForm(p) && |p| <= 10
    ensures SkipField(8 * number, p + x, depth) == Got(Varint(Sum128(p) % 0x1_0000_0000_0000_0000), x)
  {
    hide Sum128, VarintForm, ReadVarint64;
    ReadsForm(p, x);
  }

  lemma SkipsDelimited(number: nat, p: bytes, x: bytes, depth: nat)
    requires 1 <= number && VarintForm(p) && |p| <= 10
    ensures var n := Sum128(p) % 0x1_0000_0000;
            SkipField(8 * number + 2, p + x, depth)
            == if n < 0x8000_0000 && n <= |x| then Got(Delimited(x[..n]), x[n..]) else Bad
  {
    hide Sum128, VarintForm, ReadDelimited;
    ReadsDelimited(p, x);
  }

  lemma SkipsFixed(number: nat, x: bytes, depth: nat)
    requires 1 <= number
    ensures SkipField(8 * number + 1, x, depth) == if 8 <= |x| then Got(Fixed64(x[..8]), x[8..]) else Bad
    ensures SkipField(8 * number + 5, x, depth) == if 4 <= |x| then Got(Fixed32(x[..4]), x[4..]) else Bad
  {
  }

  /** What an unknown field is written as. */
  lemma UnknownWritten(number: nat, v: nat, b: bytes, items: seq<Record>)
    ensures EncodeRecord(Record(number, Varint(v))) == EncodeVarint(8 * number) + EncodeVarint(v)
    ensures EncodeRecord(Record(number, Fixed64(b))) == EncodeVarint(8 * number + 1) + b
    ensures EncodeRecord(Record(number, Delimited(b))) == EncodeVarint(8 * number + 2) + (EncodeVarint(|b|) + b)
    ensures EncodeRecord(Record(number, Group(items)))
         == EncodeVarint(8 * number + 3) + (EncodeRecords(items) + EncodeVarint(8 * number + 4))
    ensures EncodeRecord(Record(number, Fixed32(b))) == EncodeVarint(8 * number + 5) + b
  {
    hide EncodeVarint;
  }

  /** A group lasts to the end tag of its own number; the end tag of another number, a zero tag and
      a group beyond the budget are refused, and so are a stray end tag, the two unused wire types
      and the field number zero. */
  lemma {:induction false} SkipsGroups(number: nat, items: seq<Record>, other: nat, x: bytes, depth: nat)
    requires 1 <= number < 0x2000_0000 && 1 <= other < 0x2000_0000 && ValidRecords(items, depth)
    ensures SkipField(8 * number + 3, EncodeRecords(items) + (EncodeVarint(8 * other + 4) + x), depth + 1)
         == if other == number then Got(Group(items), x) else Bad
    ensures SkipField(8 * number + 3, [0] + x, depth + 1) == SkipField(8 * number + 3, x, 0) == Bad
    ensures SkipField(8 * number + 4, x, depth) == SkipField(8 * number + 6, x, depth) == Bad
    ensures SkipField(8 * number + 7, x, depth) == Bad && forall tag | 0 <= tag < 8 :: SkipField(tag, x, depth) == Bad
  {
    hide EncodeRecords, ValidRecords, EncodeVarint, SkipField, SkipGroup;
    GroupEnds(number, items, other, x, depth);
    GroupZero(number, x, depth);
    SkipsGroup(number, EncodeRecords(items) + (EncodeVarint(8 * other + 4) + x), depth);
    SkipsGroup(number, [0] + x, depth);
    Refused(number, x, depth);
  }

  lemma SkipsGroup(number: nat, bs: bytes, depth: nat)
    requires 1 <= number
    ensures SkipField(8 * number + 3, bs, depth + 1)
         == if SkipGroup(number, bs, depth).Bad? then Bad
            else Got(Group(SkipGroup(number, bs, depth).value), SkipGroup(number, bs, depth).rest)
  {
    hide SkipGroup;
  }

  lemma Refused(number: nat, x: bytes, depth: nat)
    requires 1 <= number
    ensures SkipField(8 * number + 3, x, 0) == Bad
    ensures SkipField(8 * number + 4, x, depth) == SkipField(8 * number + 6, x, depth) == Bad
    ensures SkipField(8 * number + 7, x, depth) == Bad && forall tag | 0 <= tag < 8 :: SkipField(tag, x, depth) == Bad
  {
    hide SkipGroup, ReadVarint64, ReadDelimited, Take;
  }

  lemma GroupZero(number: nat, x: bytes, depth: nat)
    ensures SkipGroup(number, [0] + x, depth) == Bad
  {
    assert ([0] + x)[1..] == x;
    assert ReadGroups([0] + x, 10) == Got(0, x);
  }

  /** One field of a group is read, and then the rest of the group. */
  lemma GroupNext(number: nat, r: Record, rest: bytes, depth: nat)
    requires ValidRecord(r, depth)
    ensures SkipGroup(number, EncodeTag(r.number, WireTypeOf(r.payload)) + (EncodePayload(r.number, r.payload) + rest), depth)
         == if SkipGroup(number, rest, depth).Bad? then Bad
            else Got([r] + SkipGroup(number, rest, depth).value, SkipGroup(number, rest, depth).rest)
  {
    hide ReadVarint32, EncodeTag, EncodePayload, SkipField;
    TagRoundTrip(r.number, WireTypeOf(r.payload), EncodePayload(r.number, r.payload) + rest);
    SkipFieldInvertsEncode(r, depth, rest);
  }

  lemma {:induction false} GroupEnds(number: nat, items: seq<Record>, other: nat, x: bytes, depth: nat)
    requires 1 <= number < 0x2000_0000 && 1 <= other < 0x2000_0000 && ValidRecords(items, depth)
    ensures SkipGroup(number, EncodeRecords(items) + (EncodeVarint(8 * other + 4) + x), depth)
         == if other == number then Got(items, x) else Bad
    decreases |items|
  {
    hide EncodeVarint, ReadVarint32, EncodePayload, SkipField, ValidRecord;
    var tail := EncodeVarint(8 * other + 4) + x;
    if items == [] {
      assert EncodeRecords(items) + tail == tail;
      VarintRoundTrip(8 * other + 4, x);
    } else {
      hide SkipGroup, EncodeRecords;
      var r, rest := items[0], EncodeRecords(items[1..]) + tail;
      assert r in items;
      RecordsSplit(items, tail);
      GroupNext(number, r, rest, depth);
      GroupEnds(number, items[1..], other, x, depth);
      assert [r] + items[1..] == items;
    }
  }
}

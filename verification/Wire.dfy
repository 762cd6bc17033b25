/**
  The wire primitives: base-128 varints, tags, fixed-width and length-delimited
  payloads, and the unknown-field records that the generated parsers keep when
  they meet a tag they do not know.
 */
module Wire {

  type byte = x: int | 0 <= x < 256
  type bytes = seq<byte>

  const TWO_31: nat := 0x8000_0000
  const TWO_32: nat := 0x1_0000_0000
  const TWO_64: nat := 0x1_0000_0000_0000_0000
  const MAX_FIELD_NUMBER: nat := 0x1FFF_FFFF
  const MAX_VARINT_BYTES: nat := 10

  /** The result of reading a value off the front of the input. */
  datatype Read<+T> = Got(value: T, rest: bytes) | Bad

  /** Concatenation regrouped: the parts after the output so far. */
  lemma Regroup<T>(out: seq<T>, a: seq<T>, b: seq<T>, c: seq<T>, d: seq<T>)
    ensures out + (a + b + c + d) == out + a + b + c + d
    ensures (a + b) + c + d == a + (b + (c + d))
  {
  }

  lemma Join<T>(out: seq<T>, a: seq<T>, b: seq<T>)
    ensures out + (a + b) == out + a + b
  {
  }

  // ---------------------------------------------------------------- varints

  function EncodeVarint(n: nat): (r: bytes)
    ensures 1 <= |r|
    ensures n < 128 ==> r == [n]
  {
    if n < 128 then [n] else [n % 128 + 128] + EncodeVarint(n / 128)
  }

  /** Reads a varint of at most `limit` bytes; the value is not yet truncated. */
  function ReadGroups(bs: bytes, limit: nat): (r: Read<nat>)
    ensures r.Got? ==> |r.rest| < |bs|
  {
    if bs == [] || limit == 0 then Bad
    else if bs[0] < 128 then Got(bs[0], bs[1..])
    else match ReadGroups(bs[1..], limit - 1)
      case Bad => Bad
      case Got(v, rest) => Got(bs[0] - 128 + 128 * v, rest)
  }

  function ReadVarint64(bs: bytes): (r: Read<nat>)
    ensures r.Got? ==> r.value < TWO_64 && |r.rest| < |bs|
  {
    match ReadGroups(bs, MAX_VARINT_BYTES)
    case Bad => Bad
    case Got(v, rest) => Got(v % TWO_64, rest)
  }

  /** The 32-bit reader takes the same bytes as the 64-bit one and keeps the low half. */
  function ReadVarint32(bs: bytes): (r: Read<nat>)
    ensures r.Got? ==> r.value < TWO_32 && |r.rest| < |bs|
  {
    match ReadVarint64(bs)
    case Bad => Bad
    case Got(v, rest) => Got(v % TWO_32, rest)
  }

  /** A size that does not fit an int is refused rather than truncated. */
  function ReadSize(bs: bytes): (r: Read<nat>)
    ensures r.Got? ==> r.value < TWO_31 && |r.rest| < |bs|
  {
    match ReadVarint64(bs)
    case Bad => Bad
    case Got(v, rest) => if v < TWO_31 then Got(v, rest) else Bad
  }

  function Pow128(k: nat): (r: nat)
    ensures 1 <= r
  {
    if k == 0 then 1 else 128 * Pow128(k - 1)
  }

  lemma {:induction false} ReadGroupsInvertsEncode(n: nat, limit: nat, x: bytes)
    requires 1 <= limit && n < Pow128(limit)
    ensures ReadGroups(EncodeVarint(n) + x, limit) == Got(n, x)
    decreases limit
  {
    var bs := EncodeVarint(n) + x;
    if n < 128 {
      assert bs[1..] == x;
    } else {
      assert bs[1..] == EncodeVarint(n / 128) + x;
      ReadGroupsInvertsEncode(n / 128, limit - 1, x);
    }
  }

  lemma Pow128Ten()
    ensures Pow128(10) == 0x40_0000_0000_0000_0000
  {
    assert Pow128(5) == 0x8_0000_0000 by { assert Pow128(2) == 16384; }
    assert Pow128(7) == 0x2_0000_0000_0000;
    assert Pow128(9) == 0x8000_0000_0000_0000;
  }

  /** Every uint64 survives the varint encoding, whatever follows it. */
  lemma {:induction false} VarintRoundTrip(n: nat, x: bytes)
    requires n < TWO_64
    ensures ReadVarint64(EncodeVarint(n) + x) == Got(n, x)
    ensures n < TWO_32 ==> ReadVarint32(EncodeVarint(n) + x) == Got(n, x)
    ensures n < TWO_31 ==> ReadSize(EncodeVarint(n) + x) == Got(n, x)
  {
    Pow128Ten();
    ReadGroupsInvertsEncode(n, MAX_VARINT_BYTES, x);
  }

  lemma {:induction false} ReadGroupsExtend(bs: bytes, limit: nat, x: bytes)
    requires ReadGroups(bs, limit).Got?
    ensures ReadGroups(bs + x, limit) == Got(ReadGroups(bs, limit).value, ReadGroups(bs, limit).rest + x)
  {
    if bs[0] < 128 {
      assert (bs + x)[1..] == bs[1..] + x;
    } else {
      ReadGroupsExtend(bs[1..], limit - 1, x);
      assert (bs + x)[1..] == bs[1..] + x;
    }
  }

  /** Bytes that come later never change what a varint read returns. */
  lemma VarintExtend(bs: bytes, x: bytes)
    requires ReadVarint64(bs).Got?
    ensures ReadVarint64(bs + x) == Got(ReadVarint64(bs).value, ReadVarint64(bs).rest + x)
    ensures ReadVarint32(bs + x) == Got(ReadVarint32(bs).value, ReadVarint32(bs).rest + x)
    ensures ReadSize(bs).Got? ==> ReadSize(bs + x) == Got(ReadSize(bs).value, ReadSize(bs).rest + x)
  {
    ReadGroupsExtend(bs, MAX_VARINT_BYTES, x);
  }

  // ------------------------------------------------------- size of a varint

  function Log2Floor(n: nat): (r: nat)
    requires 1 <= n
  {
    if n == 1 then 0 else 1 + Log2Floor(n / 2)
  }

  /** The multiply-and-shift size formula of the output stream. */
  function VarintSize(n: nat): (r: nat)
  {
    (Log2Floor(if n % 2 == 0 then n + 1 else n) * 9 + 73) / 64
  }

  lemma {:induction false} Log2Bounds(n: nat, k: nat)
    requires 1 <= n
    ensures n < Pow2(k) ==> Log2Floor(n) < k
    ensures Pow2(k) <= n ==> k <= Log2Floor(n)
    decreases k
  {
    if k > 0 && n > 1 {
      Log2Bounds(n / 2, k - 1);
    }
  }

  function Pow2(k: nat): (r: nat)
    ensures 1 <= r
  {
    if k == 0 then 1 else 2 * Pow2(k - 1)
  }

  lemma {:induction false} Log2DropGroup(n: nat)
    requires 128 <= n
    ensures Log2Floor(n) == 7 + Log2Floor(n / 128)
  {
    var a := n / 2; var b := a / 2; var c := b / 2; var d := c / 2; var e := d / 2; var f := e / 2;
    assert f / 2 == n / 128;
    assert Log2Floor(n) == 1 + Log2Floor(a) && Log2Floor(a) == 1 + Log2Floor(b);
    assert Log2Floor(b) == 1 + Log2Floor(c) && Log2Floor(c) == 1 + Log2Floor(d);
    assert Log2Floor(d) == 1 + Log2Floor(e) && Log2Floor(e) == 1 + Log2Floor(f);
    assert Log2Floor(f) == 1 + Log2Floor(f / 2);
  }

  lemma {:induction false} EncodeLengthIsLog(n: nat)
    requires 1 <= n
    ensures |EncodeVarint(n)| == Log2Floor(n) / 7 + 1
  {
    if n < 128 {
      assert Pow2(7) == 128 by { assert Pow2(4) == 16; }
      Log2Bounds(n, 7);
    } else {
      Log2DropGroup(n);
      EncodeLengthIsLog(n / 128);
    }
  }

  lemma {:induction false} Log2OrOne(n: nat)
    requires 1 <= n
    ensures Log2Floor(if n % 2 == 0 then n + 1 else n) == Log2Floor(n)
  {
    if n % 2 == 0 {
      assert (n + 1) / 2 == n / 2;
    }
  }

  lemma MultiplyForDivide(l: nat)
    requires l < 64
    ensures (l * 9 + 73) / 64 == l / 7 + 1
  {
  }

  lemma Pow2Add(a: nat, b: nat)
    ensures Pow2(a + b) == Pow2(a) * Pow2(b)
  {
    if a > 0 {
      Pow2Add(a - 1, b);
    }
  }

  lemma Pow2Halves()
    ensures Pow2(16) == 65536
  {
    assert Pow2(8) == 256;
    Pow2Add(8, 8);
  }

  lemma Pow2Words()
    ensures Pow2(31) == TWO_31 && Pow2(32) == TWO_32 && Pow2(63) == 0x8000_0000_0000_0000 && Pow2(64) == TWO_64
  {
    Pow2Halves();
    assert Pow2(32) == 65536 * 65536 by { Pow2Add(16, 16); }
    assert Pow2(64) == TWO_32 * TWO_32 by { Pow2Add(32, 32); }
    assert Pow2(32) == 2 * Pow2(31) && Pow2(64) == 2 * Pow2(63);
  }

  /** The fast size formula is the true encoded length for every 64-bit value. */
  lemma {:induction false} VarintSizeIsExact(n: nat)
    requires n < TWO_64
    ensures VarintSize(n) == |EncodeVarint(n)|
    ensures VarintSize(n) <= 10
  {
    if n > 0 {
      Log2OrOne(n);
      EncodeLengthIsLog(n);
      Pow2Words();
      Log2Bounds(n, 64);
      MultiplyForDivide(Log2Floor(n));
    }
  }
}

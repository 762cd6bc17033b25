/**
  The coded input stream: a buffer with a read position, a stack of limits of
  which the shortest is enforced, and a recursion budget.
 */
module Streams {
  import opened Wire
  import opened Unknown
  import opened Message
  import W = WireOrder

  class CodedInputStream {
    const data: bytes
    var pos: nat
    var limit: nat
    var budget: int
    var legitimateEnd: bool

    ghost predicate Valid()
      reads this
    {
      pos <= limit <= |data|
    }

    /** The bytes up to the nearest limit. */
    ghost function Rest(): (r: bytes)
      requires Valid()
      reads this
    {
      data[pos..limit]
    }

    constructor (data: bytes, budget: nat)
      ensures Valid() && Rest() == data && this.budget == budget && limit == |data|
    {
      this.data := data;
      pos, limit, this.budget, legitimateEnd := 0, |data|, budget, false;
    }

    /** The 64-bit varint at the read position, or -1 if it is truncated or overlong. */
    method ReadRaw64() returns (r: int)
      requires Valid()
      modifies this`pos
      ensures Valid()
      ensures Wire.ReadVarint64(old(Rest())) == if r >= 0 then Got(r, Rest()) else Bad
    {
      var read := Wire.ReadVarint64(data[pos..limit]);
      if read.Bad? {
        return -1;
      }
      ghost var rest := Rest();
      W.VarintExact(rest);
      pos := limit - |read.rest|;
      assert Rest() == rest[|rest| - |read.rest|..];
      return read.value;
    }

    method ReadVarint64() returns (ok: bool, v: nat)
      requires Valid()
      modifies this`pos
      ensures Valid() && v < TWO_64
      ensures Wire.ReadVarint64(old(Rest())) == if ok then Got(v, Rest()) else Bad
    {
      var r := ReadRaw64();
      ok, v := r >= 0, if r >= 0 then r else 0;
    }

    method ReadVarint32() returns (ok: bool, v: nat)
      requires Valid()
      modifies this`pos
      ensures Valid() && v < TWO_32
      ensures Wire.ReadVarint32(old(Rest())) == if ok then Got(v, Rest()) else Bad
    {
      var r := ReadRaw64();
      ok, v := r >= 0, if r >= 0 then r % TWO_32 else 0;
    }

    method ReadVarintSizeAsInt() returns (ok: bool, v: nat)
      requires Valid()
      modifies this`pos
      ensures Valid()
      ensures ReadSize(old(Rest())) == if ok then Got(v, Rest()) else Bad
    {
      var r := ReadRaw64();
      ok, v := 0 <= r < TWO_31, if 0 <= r < TWO_31 then r else 0;
    }

    /** ReadPrimitive: uint32 and int32 go through the 32-bit reader, uint64 through the 64-bit one. */
    method ReadPrimitive(w: Width, ghost depth: nat, ghost cur: Value) returns (ok: bool, n: int)
      requires Valid()
      modifies this`pos
      ensures Valid() && InRange(w, n)
      ensures ReadValue(Scalar(w), depth, cur, 0, old(Rest())) == if ok then Got(Num(n), Rest()) else Bad
    {
      NumberRead(w, depth, cur, Rest());
      hide ReadValue;
      var v: nat;
      if w == U64 {
        ok, v := ReadVarint64();
      } else {
        ok, v := ReadVarint32();
      }
      n := FromWire(w, v);
    }

    /** A tag, or zero at the end of the input (a legitimate end) or when it cannot be read. */
    method ReadTag() returns (tag: nat)
      requires Valid()
      modifies this`pos, this`legitimateEnd
      ensures Valid() && tag < TWO_32
      ensures old(Rest()) == [] ==> tag == 0 && legitimateEnd && Rest() == []
      ensures old(Rest()) != [] ==> !legitimateEnd
      ensures old(Rest()) != [] && Wire.ReadVarint32(old(Rest())).Bad? ==> tag == 0
      ensures old(Rest()) != [] && Wire.ReadVarint32(old(Rest())).Got? ==> Wire.ReadVarint32(old(Rest())) == Got(tag, Rest())
    {
      legitimateEnd := pos == limit;
      if legitimateEnd {
        return 0;
      }
      var ok, v := ReadVarint32();
      return if ok then v else 0;
    }

    method ReadBytes() returns (ok: bool, b: bytes)
      requires Valid()
      modifies this`pos
      ensures Valid() && |b| < TWO_31
      ensures ReadDelimited(old(Rest())) == if ok then Got(b, Rest()) else Bad
    {
      var got, n := ReadVarint32();
      if !got || n >= TWO_31 || limit - pos < n {
        return false, [];
      }
      ghost var rest := Rest();
      b := data[pos..pos + n];
      pos := pos + n;
      assert b == rest[..n] && Rest() == rest[n..];
      return true, b;
    }

    /** Stores a field the schema does not know; the payload is returned for the unknown-field set. */
    method SkipUnknown(tag: nat) returns (ok: bool, p: Payload)
      requires Valid() && 0 <= budget
      modifies this`pos
      ensures Valid()
      ensures SkipField(tag, old(Rest()), budget) == if ok then Got(p, Rest()) else Bad
    {
      var r := SkipField(tag, data[pos..limit], budget);
      if r.Bad? {
        return false, Varint(0);
      }
      SkipSuffix(tag, data[pos..limit], budget);
      ghost var rest := Rest();
      pos := limit - |r.rest|;
      assert Rest() == rest[|rest| - |r.rest|..];
      return true, r.value;
    }

    /** Pushes a limit; the shorter of the new and the enclosing one is enforced. */
    method PushLimit(n: nat) returns (enclosing: nat)
      requires Valid()
      modifies this`limit
      ensures Valid() && enclosing == old(limit)
      ensures Rest() == Clamp(old(Rest()), n)
    {
      enclosing := limit;
      ghost var rest := Rest();
      if n < limit - pos {
        limit := pos + n;
        assert Rest() == rest[..n];
      }
    }

    method PopLimit(enclosing: nat)
      requires Valid() && limit <= enclosing <= |data|
      modifies this`limit, this`legitimateEnd
      ensures Valid() && limit == enclosing && !legitimateEnd
      ensures Rest() == data[pos..enclosing]
    {
      limit, legitimateEnd := enclosing, false;
    }

    /** PushLimit together with one step of the recursion budget. */
    method IncrementRecursionDepthAndPushLimit(n: nat) returns (enclosing: nat, left: int)
      requires Valid()
      modifies this`limit, this`budget
      ensures Valid() && enclosing == old(limit) && limit <= enclosing <= |data|
      ensures left == budget == old(budget) - 1
      ensures Rest() == Clamp(old(Rest()), n)
      ensures data[limit..enclosing] == old(Rest())[|Rest()|..]
    {
      ghost var rest := Rest();
      enclosing := PushLimit(n);
      budget := budget - 1;
      assert data[limit..enclosing] == rest[|Rest()|..];
      return enclosing, budget;
    }

    /** The opening of ReadMessage: the length, the limit and the recursion step. */
    method OpenMessage() returns (ok: bool, enclosing: nat)
      requires Valid() && 0 <= budget
      modifies this`pos, this`limit, this`budget
      ensures Valid() && limit <= enclosing == old(limit) <= |data|
      ensures ok <==> ReadSize(old(Rest())).Got? && old(budget) > 0
      ensures ok ==> budget == old(budget) - 1
      ensures ok ==> Rest() == Clamp(ReadSize(old(Rest())).rest, ReadSize(old(Rest())).value)
      ensures ok ==> data[limit..enclosing] == ReadSize(old(Rest())).rest[|Rest()|..]
    {
      hide Wire.ReadVarint64;
      enclosing := limit;
      var got, length := ReadVarintSizeAsInt();
      if !got {
        return false, enclosing;
      }
      var left;
      enclosing, left := IncrementRecursionDepthAndPushLimit(length);
      return left >= 0, enclosing;
    }

    /** ConsumedEntireMessage, PopLimit and giving the recursion step back. */
    method DecrementRecursionDepthAndPopLimit(enclosing: nat) returns (whole: bool)
      requires Valid() && limit <= enclosing <= |data|
      modifies this`limit, this`budget, this`legitimateEnd
      ensures Valid() && whole == old(legitimateEnd)
      ensures limit == enclosing && budget == old(budget) + 1
    {
      whole := legitimateEnd;
      PopLimit(enclosing);
      budget := budget + 1;
    }

    /** Consumes the one-byte tag if it comes next. */
    method ExpectTag(tag: byte) returns (found: bool)
      requires Valid() && 1 <= tag < 128
      modifies this`pos
      ensures Valid() && found == (old(Rest()) != [] && old(Rest())[0] == tag)
      ensures Rest() == if found then old(Rest())[1..] else old(Rest())
    {
      found := pos < limit && data[pos] == tag;
      if found {
        ghost var rest := Rest();
        pos := pos + 1;
        assert Rest() == rest[1..];
      }
    }
  }

  /** Reading a 32-bit field through the 32-bit varint reader is reading 64 bits and truncating. */
  lemma NumberRead(w: Width, depth: nat, cur: Value, bs: bytes)
    ensures ReadValue(Scalar(w), depth, cur, 0, bs)
         == match ReadVarint64(bs) case Bad => Bad case Got(v, rest) => Got(Num(FromWire(w, v)), rest)
    ensures w != U64 ==>
              ReadValue(Scalar(w), depth, cur, 0, bs)
              == match ReadVarint32(bs) case Bad => Bad case Got(v, rest) => Got(Num(FromWire(w, v)), rest)
  {
  }

  /** What SkipField leaves is the end of what it was given. */
  lemma {:induction false} SkipSuffix(tag: nat, bs: bytes, depth: nat)
    requires SkipField(tag, bs, depth).Got?
    ensures |SkipField(tag, bs, depth).rest| <= |bs|
    ensures SkipField(tag, bs, depth).rest == bs[|bs| - |SkipField(tag, bs, depth).rest|..]
  {
    W.SkipFieldExact(tag, bs, depth);
  }
}

/**
  RepeatedField of an unsigned number and the two ways of reading into it.  Both are
  judged by the parse of the message `m` that the list is the second field of.
 */
module NumberFields {
  import opened Wire
  import opened Unknown
  import opened Message
  import opened Failing
  import opened Streams
  import opened Writing

  const LIST: nat := 1
  const UNPACKED_TAG: nat := 16
  const PACKED_TAG: nat := 18

  /** The second field of the schema, numbered 2, is a list of such numbers. */
  predicate ListOf(s: Schema, w: Width) {
    |s.fields| > LIST && Find(s.fields, 2) == LIST && s.fields[LIST].kind == Repeated(w)
  }

  /** The message with this list. */
  function WithList(m: Msg, ns: seq<int>): (r: Msg)
    requires LIST < |m.slots|
  {
    Put(m, LIST, Nums(ns))
  }

  /** The parse loop at `m` in front of `bs` has either got to `x` in front of `rest`, or given up and left `x`. */
  ghost predicate Continues(s: Schema, depth: nat, m: Msg, bs: bytes, ok: bool, x: Msg, rest: bytes) {
    if ok then Follows(s, depth, m, bs, x, rest)
    else Parse(s, depth, m, bs) == Failed && Leaves(s, depth, m, bs, x)
  }

  lemma Stays(s: Schema, depth: nat, m: Msg, bs: bytes)
    ensures Continues(s, depth, m, bs, true, m, bs)
  {
    FollowsStart(s, depth, m, bs);
  }

  /** What a turn of the switch does, seen from the start of the loop. */
  lemma Onward(s: Schema, depth: nat, m0: Msg, bs0: bytes, m: Msg, bs: bytes, ok: bool, x: Msg, rest: bytes)
    requires Follows(s, depth, m0, bs0, m, bs) && Continues(s, depth, m, bs, ok, x, rest)
    ensures Continues(s, depth, m0, bs0, ok, x, rest)
  {
    if ok { FollowsOn(s, depth, m0, bs0, m, bs, x, rest); }
  }

  /** The unpacked case of the switch: one value is appended. */
  lemma UnpackedCase(s: Schema, w: Width, depth: nat, m: Msg, ns: seq<int>, bs: bytes)
    requires ListOf(s, w) && LIST < |m.slots| && m.slots[LIST] == Nums(ns)
    ensures ReadField(s, depth, m, UNPACKED_TAG, bs)
         == match ReadVarint64(bs)
            case Bad => Bad
            case Got(v, rest) => Got(WithList(m, ns + [FromWire(w, v)]), rest)
    ensures LeavesField(s, depth, m, UNPACKED_TAG, bs, m)
  {
    assert ns + [] == ns && m.slots[LIST := m.slots[LIST]] == m.slots;
  }

  /** The packed case: the run that the limit leaves is appended, and a broken one up to where it breaks. */
  lemma PackedCase(s: Schema, w: Width, depth: nat, m: Msg, ns: seq<int>, bs: bytes)
    requires ListOf(s, w) && LIST < |m.slots| && m.slots[LIST] == Nums(ns)
    ensures ReadField(s, depth, m, PACKED_TAG, bs)
         == match ReadSize(bs)
            case Bad => Bad
            case Got(n, rest) =>
              var run := Clamp(rest, n);
              match ReadPacked(w, run)
              case Broken => Bad
              case Run(more) => Got(WithList(m, ns + more), rest[|run|..])
    ensures LeavesField(s, depth, m, PACKED_TAG, bs,
                        match ReadSize(bs)
                        case Bad => m
                        case Got(n, rest) => WithList(m, ns + RunPrefix(w, Clamp(rest, n))))
  {
    hide ReadPacked, RunPrefix;
    assert ns + [] == ns && m.slots[LIST := m.slots[LIST]] == m.slots;
  }

  /** Taking the next unpacked record at once is what the parse loop would do with it. */
  lemma NextRecord(s: Schema, w: Width, depth: nat, m: Msg, ns: seq<int>, bs: bytes, ok: bool, x: Msg, rest: bytes)
    requires ListOf(s, w) && LIST < |m.slots| && m.slots[LIST] == Nums(ns) && bs != [] && bs[0] == UNPACKED_TAG
    requires ReadField(s, depth, m, UNPACKED_TAG, bs[1..]) == if ok then Got(x, rest) else Bad
    ensures Continues(s, depth, m, bs, ok, if ok then x else m, rest)
  {
    hide Parse, Leaves, LeavesField, Follows, ReadField;
    assert ReadVarint32(bs) == Got(UNPACKED_TAG, bs[1..]);
    FollowsStart(s, depth, m, bs);
    Turn(s, depth, m, bs, m, bs);
    UnpackedCase(s, w, depth, m, ns, bs[1..]);
  }

  // ----------------------------------------------------------- packed runs

  /** A packed run, with the values already read in front. */
  ghost function After(done: seq<int>, p: Packed): Packed {
    match p case Broken => Broken case Run(ns) => Run(done + ns)
  }

  lemma RunStart(w: Width, p: Packed, bs: bytes)
    ensures After([], p) == p && [] + RunPrefix(w, bs) == RunPrefix(w, bs)
    ensures bs == [] ==> ReadPacked(w, bs) == Run([])
  {
    if p.Run? { assert [] + p.ns == p.ns; }
  }

  lemma RunStep(w: Width, done: seq<int>, bs: bytes)
    requires bs != []
    ensures ReadVarint64(bs).Bad? ==> After(done, ReadPacked(w, bs)) == Broken && done + RunPrefix(w, bs) == done
    ensures ReadVarint64(bs).Got? ==>
              var v, rest := FromWire(w, ReadVarint64(bs).value), ReadVarint64(bs).rest;
              && After(done, ReadPacked(w, bs)) == After(done + [v], ReadPacked(w, rest))
              && done + RunPrefix(w, bs) == done + [v] + RunPrefix(w, rest)
  {
    hide ReadVarint64, FromWire;
    if ReadVarint64(bs).Bad? {
      assert done + [] == done;
    } else {
      var v, rest := FromWire(w, ReadVarint64(bs).value), ReadVarint64(bs).rest;
      Join(done, [v], RunPrefix(w, rest));
      if ReadPacked(w, rest).Run? { Join(done, [v], ReadPacked(w, rest).ns); }
    }
  }

  // ------------------------------------------------------------- the class

  class NumberField {
    const w: Width
    var elements: seq<int>
    /** Allocated room. */
    var capacity: nat

    ghost predicate Valid()
      reads this`elements, this`capacity
    {
      |elements| <= capacity && forall v | v in elements :: InRange(w, v)
    }

    constructor (w: Width)
      ensures this.w == w && Valid() && elements == []
    {
      this.w, elements, capacity := w, [], 0;
    }

    /** Reserve: at least four, at least double. */
    method Reserve(n: nat)
      modifies this`capacity
      ensures n <= capacity && old(capacity) <= capacity
      ensures n <= old(capacity) ==> capacity == old(capacity)
      ensures old(capacity) < n ==> 4 <= capacity && 2 * old(capacity) <= capacity && capacity in {4, n, 2 * old(capacity)}
    {
      if capacity < n {
        capacity := if 2 * capacity < n then n else 2 * capacity;
        capacity := if capacity < 4 then 4 else capacity;
      }
    }

    method Add(value: int)
      requires Valid() && InRange(w, value)
      modifies this`elements, this`capacity
      ensures Valid() && elements == old(elements) + [value]
    {
      if |elements| == capacity {
        Reserve(capacity + 1);
      }
      elements := elements + [value];
    }

    /** AddAlreadyReserved: the caller vouches for the room. */
    method AddAlreadyReserved(value: int)
      requires Valid() && InRange(w, value) && |elements| < capacity
      modifies this`elements
      ensures Valid() && elements == old(elements) + [value]
    {
      elements := elements + [value];
    }

    method Clear()
      requires Valid()
      modifies this`elements
      ensures Valid() && elements == []
    {
      elements := [];
    }

    method MergeFrom(from: NumberField)
      requires Valid() && from.Valid() && from.w == w
      modifies this`elements, this`capacity
      ensures Valid() && elements == old(elements + from.elements)
    {
      Reserve(|elements| + |from.elements|);
      elements := elements + from.elements;
    }

    /** One value, appended. */
    method ReadOne(input: CodedInputStream, reserved: bool, ghost s: Schema, ghost m: Msg) returns (ok: bool)
      requires Valid() && input.Valid() && 0 <= input.budget && (reserved ==> |elements| < capacity)
      requires ListOf(s, w) && LIST < |m.slots| && m.slots[LIST] == Nums(elements)
      modifies this`elements, this`capacity, input`pos
      ensures Valid() && input.Valid() && (!ok ==> elements == old(elements))
      ensures reserved && ok ==> capacity == old(capacity) && |elements| == |old(elements)| + 1
      ensures ReadField(s, input.budget, m, UNPACKED_TAG, old(input.Rest()))
              == if ok then Got(WithList(m, elements), input.Rest()) else Bad
    {
      hide ReadField, LeavesField;
      UnpackedCase(s, w, input.budget, m, elements, input.Rest());
      var v;
      ok, v := input.ReadVarint64();
      if ok {
        if reserved {
          AddAlreadyReserved(FromWire(w, v));
        } else {
          Add(FromWire(w, v));
        }
      }
    }

    /** ReadRepeatedPrimitive: after the first value, further records with the tag are taken greedily as
        long as there is reserved room.  However much room there is, the parse ends up the same. */
    method ReadRepeatedPrimitive(input: CodedInputStream, ghost s: Schema, ghost m: Msg) returns (ok: bool)
      requires Valid() && input.Valid() && 0 <= input.budget
      requires ListOf(s, w) && LIST < |m.slots| && m.slots[LIST] == Nums(elements)
      modifies this`elements, this`capacity, input`pos
      ensures Valid() && input.Valid() && (ok ==> |input.Rest()| < |old(input.Rest())|)
      ensures match ReadField(s, input.budget, m, UNPACKED_TAG, old(input.Rest()))
              case Bad => !ok && elements == old(elements)
              case Got(m1, rest) => Continues(s, input.budget, m1, rest, ok, WithList(m, elements), input.Rest())
    {
      hide ReadField, Follows, Leaves, Parse, Valid, ListOf;
      ok := ReadOne(input, false, s, m);
      if !ok {
        return false;
      }
      ghost var m1, rest := WithList(m, elements), input.Rest();
      FollowsStart(s, input.budget, m1, rest);
      var reserved := Room();
      var more := true;
      while reserved > 0 && more
        invariant Valid() && input.Valid() && |input.Rest()| < |old(input.Rest())|
        invariant reserved == capacity - |elements|
        invariant Follows(s, input.budget, m1, rest, WithList(m, elements), input.Rest())
        decreases reserved, more
      {
        ghost var m2, rest2, ns := WithList(m, elements), input.Rest(), elements;
        more := input.ExpectTag(UNPACKED_TAG);
        if more {
          ok := ReadOne(input, true, s, m2);
          Overwrite(m, ns, elements);
          NextRecord(s, w, input.budget, m2, ns, rest2, ok, WithList(m, elements), input.Rest());
          Onward(s, input.budget, m1, rest, m2, rest2, ok, WithList(m, elements), input.Rest());
          if !ok {
            return false;
          }
          reserved := reserved - 1;
        }
      }
      return true;
    }

    /** The reserved room beyond the list. */
    method Room() returns (n: nat)
      requires Valid()
      ensures n == capacity - |elements|
    {
      n := capacity - |elements|;
    }

    /** The loop of ReadPackedPrimitive, inside the pushed limit. */
    method ReadRun(input: CodedInputStream) returns (ok: bool)
      requires Valid() && input.Valid()
      modifies this`elements, this`capacity, input`pos
      ensures Valid() && input.Valid()
      ensures match ReadPacked(w, old(input.Rest()))
              case Broken => !ok && elements == old(elements) + RunPrefix(w, old(input.Rest()))
              case Run(ns) => ok && elements == old(elements) + ns && input.Rest() == []
    {
      hide ReadPacked, RunPrefix;
      ghost var whole := ReadPacked(w, input.Rest());
      ghost var done: seq<int> := [];
      RunStart(w, whole, input.Rest());
      while input.pos < input.limit
        invariant Valid() && input.Valid() && elements == old(elements) + done
        invariant whole == After(done, ReadPacked(w, input.Rest()))
        invariant RunPrefix(w, old(input.Rest())) == done + RunPrefix(w, input.Rest())
        decreases |input.Rest()|
      {
        RunStep(w, done, input.Rest());
        var v;
        ok, v := input.ReadVarint64();
        if !ok {
          return false;
        }
        Add(FromWire(w, v));
        done := done + [FromWire(w, v)];
      }
      RunStart(w, whole, input.Rest());
      return true;
    }

    /** ReadPackedPrimitive: a length, a limit, and values up to it. */
    method ReadPackedPrimitive(input: CodedInputStream, ghost s: Schema, ghost m: Msg) returns (ok: bool)
      requires Valid() && input.Valid() && 0 <= input.budget
      requires ListOf(s, w) && LIST < |m.slots| && m.slots[LIST] == Nums(elements)
      modifies this`elements, this`capacity, input`pos, input`limit, input`legitimateEnd
      ensures Valid() && input.Valid() && (ok ==> input.limit == old(input.limit))
      ensures ReadField(s, input.budget, m, PACKED_TAG, old(input.Rest()))
              == if ok then Got(WithList(m, elements), input.Rest()) else Bad
      ensures !ok ==> LeavesField(s, input.budget, m, PACKED_TAG, old(input.Rest()), WithList(m, elements))
    {
      hide ReadPacked, RunPrefix, ReadField, LeavesField, ReadSize, ListOf;
      PackedCase(s, w, input.budget, m, elements, input.Rest());
      Overwrite(m, elements, elements);
      var got, length := input.ReadVarintSizeAsInt();
      if !got {
        return false;
      }
      ghost var rest := input.Rest();
      var enclosing := input.PushLimit(length);
      ghost var run := input.Rest();
      ok := ReadRun(input);
      if !ok {
        return false;
      }
      input.PopLimit(enclosing);
      assert input.Rest() == rest[|run|..];
    }

    /** UInt32Size or UInt64Size of the whole list: the sum of the varint sizes. */
    method DataSize() returns (n: nat)
      requires Valid()
      ensures |elements| + n == |EncodeNums(2, elements)|
    {
      n := 0;
      var i := 0;
      while i < |elements|
        invariant 0 <= i <= |elements| && i + n == |EncodeNums(2, elements[..i])|
      {
        assert elements[i] in elements && elements[..i + 1] == elements[..i] + [elements[i]];
        NumsSnoc(2, elements[..i], elements[i]);
        NumberSizeIsExact(w, elements[i]);
        ShortTag(2, 0);
        n := n + NumberSize(w, elements[i]);
        i := i + 1;
      }
      assert elements[..i] == elements;
    }

    /** WriteUInt32 or WriteUInt64 for each element. */
    method Write(out: bytes) returns (r: bytes)
      ensures r == out + EncodeNums(2, elements)
    {
      hide EncodeNums, EncodeTag, EncodeVarint;
      NoneWritten(2, Schema([]));
      r := out;
      var i := 0;
      while i < |elements|
        invariant 0 <= i <= |elements| && r == out + EncodeNums(2, elements[..i])
      {
        assert elements[..i + 1] == elements[..i] + [elements[i]];
        NumsSnoc(2, elements[..i], elements[i]);
        r := r + (EncodeTag(2, 0) + EncodeVarint(ToWire(elements[i])));
        i := i + 1;
      }
      assert elements[..i] == elements;
    }
  }

  lemma Overwrite(m: Msg, ns: seq<int>, more: seq<int>)
    requires LIST < |m.slots|
    ensures WithList(WithList(m, ns), more) == WithList(m, more)
    ensures m.slots[LIST] == Nums(ns) ==> WithList(m, ns) == m
  {
  }
}

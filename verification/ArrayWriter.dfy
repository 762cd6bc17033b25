/**
  Writing straight into a byte array.  Each writer puts its bytes at `at`, returns
  the position behind them and leaves the rest of the array alone.
 */
module ArrayWriter {
  import opened Wire
  import opened Unknown
  import opened Message
  import opened Sizing
  import opened Writing

  /** The data has taken the place of what was between `at` and `end`; the rest is as before. */
  ghost predicate Spliced(was: bytes, now: bytes, at: nat, end: nat, data: bytes) {
    at <= end == at + |data| <= |was| && now == was[..at] + data + was[end..]
  }

  twostate predicate Wrote(target: array<byte>, at: nat, end: nat, data: bytes)
    reads target
  {
    end == at + |data| <= target.Length && Spliced(old(target[..]), target[..], at, end, data)
  }

  lemma SpliceNone(was: bytes, at: nat)
    requires at <= |was|
    ensures Spliced(was, was, at, at, [])
  {
  }

  lemma SpliceByte(was: bytes, now: bytes, at: nat, end: nat, data: bytes, b: byte)
    requires Spliced(was, now, at, end, data) && end < |was|
    ensures Spliced(was, now[end := b], at, end + 1, data + [b])
  {
  }

  /** One piece behind the other is the two together. */
  lemma SpliceJoin(was: bytes, mid: bytes, now: bytes, at: nat, m: nat, end: nat, a: bytes, b: bytes)
    requires Spliced(was, mid, at, m, a) && Spliced(mid, now, m, end, b)
    ensures Spliced(was, now, at, end, a + b)
  {
    assert mid[..m] == was[..at] + a;
    assert mid[end..] == was[end..];
  }

  lemma VarintStep(done: bytes, v: nat)
    ensures v >= 0x80 ==> done + EncodeVarint(v) == done + [v % 128 + 128] + EncodeVarint(v / 128)
    ensures v < 0x80 ==> EncodeVarint(v) == [v]
  {
  }

  /** The varint loop: seven bits at a time, the high bit set on all but the last byte. */
  method WriteVarint64ToArray(value: nat, target: array<byte>, at: nat) returns (end: nat)
    requires at + |EncodeVarint(value)| <= target.Length
    modifies target
    ensures Wrote(target, at, end, EncodeVarint(value))
  {
    hide Spliced, EncodeVarint;
    ghost var was := target[..];
    ghost var done: bytes := [];
    assert done + EncodeVarint(value) == EncodeVarint(value);
    SpliceNone(was, at);
    var v := value;
    end := at;
    while v >= 0x80
      invariant end == at + |done| && done + EncodeVarint(v) == EncodeVarint(value)
      invariant Spliced(was, target[..], at, end, done)
    {
      VarintStep(done, v);
      SpliceByte(was, target[..], at, end, done, v % 128 + 128);
      target[end] := v % 128 + 128;
      end := end + 1;
      done := done + [v % 128 + 128];
      v := v / 128;
    }
    VarintStep(done, v);
    SpliceByte(was, target[..], at, end, done, v);
    target[end] := v;
    end := end + 1;
  }

  method WriteTagToArray(number: nat, wireType: nat, target: array<byte>, at: nat) returns (end: nat)
    requires wireType < 8 && at + |EncodeTag(number, wireType)| <= target.Length
    modifies target
    ensures Wrote(target, at, end, EncodeTag(number, wireType))
  {
    end := WriteVarint64ToArray(MakeTag(number, wireType), target, at);
  }

  method WriteRawToArray(data: bytes, target: array<byte>, at: nat) returns (end: nat)
    requires at + |data| <= target.Length
    modifies target
    ensures Wrote(target, at, end, data)
  {
    ghost var was := target[..];
    end := at + |data|;
    forall i | 0 <= i < |data| {
      target[at + i] := data[i];
    }
    ghost var now := was[..at] + data + was[end..];
    forall j | 0 <= j < |was| ensures target[j] == now[j] {
      if at <= j < end { assert target[at + (j - at)] == data[j - at]; }
    }
    assert target[..] == now;
  }

  /** A tag, the length of the data cast to 32 bits, and the data. */
  method WriteDelimitedToArray(number: nat, length: nat, data: bytes, target: array<byte>, at: nat) returns (end: nat)
    requires length == |data| % TWO_32 && at + |EncodeTag(number, 2) + EmitDelimited(data)| <= target.Length
    modifies target
    ensures Wrote(target, at, end, EncodeTag(number, 2) + EmitDelimited(data))
  {
    hide EncodeTag, EncodeVarint, Spliced;
    ghost var t0 := target[..];
    var a := WriteTagToArray(number, 2, target, at);
    ghost var t1 := target[..];
    var b := WriteVarint64ToArray(length, target, a);
    ghost var t2 := target[..];
    end := WriteRawToArray(data, target, b);
    SpliceJoin(t1, t2, target[..], a, b, end, EncodeVarint(length), data);
    SpliceJoin(t0, t1, target[..], at, a, end, EncodeTag(number, 2), EmitDelimited(data));
  }

  /** A tag and a number, sign-extended if it is negative. */
  method WriteNumberToArray(number: nat, value: int, target: array<byte>, at: nat) returns (end: nat)
    requires at + |EncodeTag(number, 0) + EncodeVarint(ToWire(value))| <= target.Length
    modifies target
    ensures Wrote(target, at, end, EncodeTag(number, 0) + EncodeVarint(ToWire(value)))
  {
    hide EncodeTag, EncodeVarint, ToWire, Spliced;
    ghost var t0 := target[..];
    var a := WriteTagToArray(number, 0, target, at);
    ghost var t1 := target[..];
    end := WriteVarint64ToArray(ToWire(value), target, a);
    SpliceJoin(t0, t1, target[..], at, a, end, EncodeTag(number, 0), EncodeVarint(ToWire(value)));
  }

  /** WritePrimitiveToArray: the whole list is handed over; an empty one writes nothing. */
  method WriteNumbersToArray(number: nat, values: seq<int>, target: array<byte>, at: nat) returns (end: nat)
    requires at + |EncodeNums(number, values)| <= target.Length
    modifies target
    ensures Wrote(target, at, end, EncodeNums(number, values))
  {
    hide EncodeNums, EncodeTag, EncodeVarint, Spliced;
    NoneWritten(number, Schema([]));
    ghost var was := target[..];
    SpliceNone(was, at);
    var n := |values|;
    end := at;
    if n == 0 {
      return;
    }
    var i := 0;
    assert values[..0] == [] && values[..n] == values;
    while i < n
      invariant 0 <= i <= n && end == at + |EncodeNums(number, values[..i])|
      invariant Spliced(was, target[..], at, end, EncodeNums(number, values[..i]))
    {
      NumsSnoc(number, values[..i], values[i]);
      assert values[..i + 1] == values[..i] + [values[i]];
      NumsPrefix(number, values, i + 1);
      ghost var mid, m := target[..], end;
      end := WriteNumberToArray(number, values[i], target, end);
      SpliceJoin(was, mid, target[..], at, m, end, EncodeNums(number, values[..i]),
                 EncodeTag(number, 0) + EncodeVarint(ToWire(values[i])));
      i := i + 1;
    }
  }

  lemma {:induction false} NumsPrefix(number: nat, ns: seq<int>, i: nat)
    requires i <= |ns|
    ensures |EncodeNums(number, ns[..i])| <= |EncodeNums(number, ns)|
    decreases |ns| - i
  {
    if i < |ns| {
      assert ns[..i + 1] == ns[..i] + [ns[i]];
      NumsSnoc(number, ns[..i], ns[i]);
      NumsPrefix(number, ns, i + 1);
    } else {
      assert ns[..i] == ns;
    }
  }
}

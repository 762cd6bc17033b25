/** The size calculator and the write steps of the generated serializers. */
module Writing {
  import opened Wire
  import opened Unknown
  import opened Message
  import opened RoundTrip

  /** LengthDelimitedSize: the prefix is sized from the length cast to 32 bits. */
  function DelimitedSize(n: nat): (r: nat) {
    n + VarintSize(n % TWO_32)
  }

  function NumberSize(w: Width, n: int): (r: nat) {
    if w == I32 then Int32Size(n) else if n < 0 then 0 else VarintSize(n)
  }

  lemma NumberSizeIsExact(w: Width, n: int)
    requires InRange(w, n)
    ensures NumberSize(w, n) == |EncodeVarint(ToWire(n))|
  {
    hide VarintSize, EncodeVarint, Int32Size;
    if w == I32 {
      Int32SizeIsExact(n);
    } else {
      VarintSizeIsExact(n);
    }
  }

  /** Field numbers up to 15 have one-byte tags, the "1 +" of the size code. */
  lemma ShortTag(number: nat, wireType: nat)
    requires number <= 15 && wireType < 8
    ensures EncodeTag(number, wireType) == [MakeTag(number, wireType)]
  {
  }

  lemma LengthStep(s: Schema, m: Msg, i: nat)
    requires i < |s.fields| == |m.slots|
    ensures |SerializeFrom(s, m, i)| == |EncodeSlot(s.fields[i], m.slots[i])| + |SerializeFrom(s, m, i + 1)|
  {
  }

  lemma LengthEnd(s: Schema, m: Msg)
    requires |s.fields| == |m.slots|
    ensures SerializeFrom(s, m, |s.fields|) == EncodeRecords(m.unknown)
  {
  }

  /** A size_t stored as an int: truncated to 32 bits and read as signed. */
  function ToCachedSize(n: nat): (r: int) {
    FromWire(I32, n)
  }

  lemma NoneWritten(number: nat, s: Schema)
    ensures EncodeSubs(number, s, []) == [] && EncodeNums(number, []) == [] && EncodeRecords([]) == []
  {
  }

  /** Writing one more repeated message appends its record. */
  lemma {:induction false} SubsSnoc(number: nat, s: Schema, ms: seq<Msg>, m: Msg)
    ensures EncodeSubs(number, s, ms + [m])
         == EncodeSubs(number, s, ms) + (EncodeTag(number, 2) + EncodeDelimited(Serialize(s, m)))
    decreases |ms|
  {
    hide Serialize;
    if ms == [] {
      assert ms + [m] == [m] && [m][1..] == [];
    } else {
      assert (ms + [m])[1..] == ms[1..] + [m];
      SubsSnoc(number, s, ms[1..], m);
    }
  }

  lemma {:induction false} NumsSnoc(number: nat, ns: seq<int>, n: int)
    ensures EncodeNums(number, ns + [n]) == EncodeNums(number, ns) + (EncodeTag(number, 0) + EncodeVarint(ToWire(n)))
    decreases |ns|
  {
    if ns == [] {
      assert ns + [n] == [n] && [n][1..] == [];
    } else {
      assert (ns + [n])[1..] == ns[1..] + [n];
      NumsSnoc(number, ns[1..], n);
    }
  }
}

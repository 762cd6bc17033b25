/**
  Forward compatibility.  A node built with an older schema, one that lacks the
  last fields, keeps what it does not know as unknown fields and writes it back.
 */
module Relay {
  import opened Wire
  import opened Unknown
  import opened Message
  import opened RoundTrip
  import S = Schemas

  /** The records that carry one field on the wire. */
  function SlotRecords(f: Field, v: Value): (rs: seq<Record>) {
    match (f.kind, v)
    case (Scalar(_), Num(n)) => [Record(f.number, Varint(ToWire(n)))]
    case (Double, Raw(b)) => [Record(f.number, Fixed64(b))]
    case (Bytes, Raw(b)) => [Record(f.number, Delimited(b))]
    case (Message(s), Sub(m)) => [Record(f.number, Delimited(Serialize(s, m)))]
    case (Repeated(_), Nums(ns)) => seq(|ns|, i requires 0 <= i < |ns| => Record(f.number, Varint(ToWire(ns[i]))))
    case (RepeatedMessage(s), Subs(ms)) =>
      seq(|ms|, i requires 0 <= i < |ms| => Record(f.number, Delimited(Serialize(s, ms[i]))))
    case _ => []
  }

  /** What an older node sees as unknown: the fields from index `k` on, then the unknown fields. */
  function RecordsFrom(s: Schema, m: Msg, k: nat): (rs: seq<Record>)
    decreases |m.slots| - k
  {
    if k < |s.fields| && k < |m.slots| then SlotRecords(s.fields[k], m.slots[k]) + RecordsFrom(s, m, k + 1)
    else m.unknown
  }

  lemma OneRecordBytes(r: Record)
    ensures EncodeRecords([r]) == EncodeRecord(r)
  {
    assert EncodeRecord(r) + [] == EncodeRecord(r);
  }

  lemma {:induction false} NumsAsRecords(f: Field, ns: seq<int>)
    requires f.kind.Repeated?
    ensures EncodeRecords(SlotRecords(f, Nums(ns))) == EncodeNums(f.number, ns)
  {
    var rs := SlotRecords(f, Nums(ns));
    if ns != [] {
      assert rs[1..] == SlotRecords(f, Nums(ns[1..]));
      assert EncodeRecord(rs[0]) == EncodeTag(f.number, 0) + EncodeVarint(ToWire(ns[0]));
      NumsAsRecords(f, ns[1..]);
    }
  }

  lemma {:induction false} SubsAsRecords(f: Field, ms: seq<Msg>)
    requires f.kind.RepeatedMessage?
    ensures EncodeRecords(SlotRecords(f, Subs(ms))) == EncodeSubs(f.number, f.kind.schema, ms)
  {
    var rs := SlotRecords(f, Subs(ms));
    if ms != [] {
      assert rs[1..] == SlotRecords(f, Subs(ms[1..]));
      assert EncodeRecord(rs[0]) == EncodeTag(f.number, 2) + EncodeDelimited(Serialize(f.kind.schema, ms[0]));
      SubsAsRecords(f, ms[1..]);
    }
  }

  lemma {:induction false} SlotAsRecords(f: Field, depth: nat, v: Value)
    requires ValidValue(f.kind, depth, v)
    ensures EncodeRecords(SlotRecords(f, v)) == EncodeSlot(f, v)
  {
    match v
    case Absent =>
    case Nums(ns) => NumsAsRecords(f, ns);
    case Subs(ms) => SubsAsRecords(f, ms);
    case _ => OneRecordBytes(SlotRecords(f, v)[0]);
  }

  lemma {:induction false} TailAsRecords(s: Schema, depth: nat, m: Msg, k: nat)
    requires Valid(s, depth, m) && k <= |s.fields|
    ensures SerializeFrom(s, m, k) == EncodeRecords(RecordsFrom(s, m, k))
    decreases |s.fields| - k
  {
    if k < |s.fields| {
      SlotAsRecords(s.fields[k], depth, m.slots[k]);
      TailAsRecords(s, depth, m, k + 1);
      EncodeRecordsConcat(SlotRecords(s.fields[k], m.slots[k]), RecordsFrom(s, m, k + 1));
    }
  }

  lemma WholeAsRecords(s: Schema, depth: nat, m: Msg)
    requires Valid(s, depth, m)
    ensures Serialize(s, m) == SerializeFrom(s, m, 0) == EncodeRecords(RecordsFrom(s, m, 0))
  {
    TailAsRecords(s, depth, m, 0);
  }

  /** The older node's view of the message. */
  function Relayed(s: Schema, m: Msg, k: nat): Msg
    requires k <= |m.slots|
  {
    Msg(m.slots[..k], RecordsFrom(s, m, k))
  }

  ghost predicate OlderThan(older: Schema, newer: Schema) {
    older.fields <= newer.fields
  }

  lemma {:induction false} PrefixSerializes(older: Schema, newer: Schema, depth: nat, m: Msg, i: nat)
    requires OlderThan(older, newer) && Valid(newer, depth, m) && i <= |older.fields|
    ensures SerializeFrom(older, Relayed(newer, m, |older.fields|), i) == SerializeFrom(newer, m, i)
    decreases |older.fields| - i
  {
    var k := |older.fields|;
    if i == k {
      TailAsRecords(newer, depth, m, k);
    } else {
      PrefixSerializes(older, newer, depth, m, i + 1);
    }
  }

  lemma {:induction false} LongestRecord(rs: seq<Record>, r: Record)
    requires r in rs && r.payload.Delimited?
    ensures |r.payload.data| <= |EncodeRecords(rs)|
  {
    assert EncodeRecords(rs) == EncodeRecord(rs[0]) + EncodeRecords(rs[1..]);
    if r != rs[0] {
      LongestRecord(rs[1..], r);
    } else {
      assert EncodePayload(r.number, r.payload) == EncodeDelimited(r.payload.data);
    }
  }

  /** Every record of field `k` has that number and a wire type its own schema accepts. */
  lemma {:induction false} SlotRecordsValid(f: Field, depth: nat, v: Value, r: Record)
    requires 1 <= f.number <= MAX_FIELD_NUMBER && ValidValue(f.kind, depth, v)
    requires r in SlotRecords(f, v) && |EncodeSlot(f, v)| < TWO_31
    ensures r.number == f.number && ValidRecord(r, depth)
  {
    SlotAsRecords(f, depth, v);
    if r.payload.Delimited? { LongestRecord(SlotRecords(f, v), r); }
  }

  lemma {:induction false} TailRecordsValid(newer: Schema, depth: nat, m: Msg, k: nat, r: Record)
    requires WellFormed(newer) && Valid(newer, depth, m) && k <= |newer.fields|
    requires |SerializeFrom(newer, m, k)| < TWO_31 && r in RecordsFrom(newer, m, k)
    ensures ValidRecord(r, depth)
    ensures r in m.unknown || exists j :: k <= j < |newer.fields| && newer.fields[j].number == r.number
    decreases |newer.fields| - k
  {
    if k < |newer.fields| {
      if r in SlotRecords(newer.fields[k], m.slots[k]) {
        SlotRecordsValid(newer.fields[k], depth, m.slots[k], r);
      } else {
        TailRecordsValid(newer, depth, m, k + 1, r);
      }
    }
  }

  lemma RelayedValid(older: Schema, newer: Schema, depth: nat, m: Msg)
    requires WellFormed(newer) && OlderThan(older, newer) && Valid(newer, depth, m)
    requires |Serialize(newer, m)| < TWO_31
    ensures WellFormed(older) && Valid(older, depth, Relayed(newer, m, |older.fields|))
  {
    var k := |older.fields|;
    forall i | 0 <= i < k ensures older.fields[i] == newer.fields[i] { }
    PrefixSerializes(older, newer, depth, m, 0);
    TailSmaller(newer, m, 0, k);
    forall r | r in RecordsFrom(newer, m, k)
      ensures ValidRecord(r, depth) && !Knows(older, MakeTag(r.number, WireTypeOf(r.payload)))
    {
      TailRecordsValid(newer, depth, m, k, r);
      OlderKnowsLess(older, newer, MakeTag(r.number, WireTypeOf(r.payload)));
    }
  }

  lemma OlderKnowsLess(older: Schema, newer: Schema, tag: nat)
    requires WellFormed(newer) && OlderThan(older, newer)
    ensures Knows(older, tag) ==> Knows(newer, tag)
    ensures (exists j :: |older.fields| <= j < |newer.fields| && newer.fields[j].number == tag / 8) ==> !Knows(older, tag)
  {
    var i := Find(older.fields, tag / 8);
    if i < |older.fields| {
      assert older.fields[i] == newer.fields[i];
      FindField(newer, i);
    }
  }

  lemma {:induction false} TailSmaller(s: Schema, m: Msg, i: nat, k: nat)
    requires i <= k <= |s.fields| == |m.slots|
    ensures |SerializeFrom(s, m, k)| <= |SerializeFrom(s, m, i)|
    decreases k - i
  {
    if i < k {
      TailSmaller(s, m, i + 1, k);
    }
  }

  /** An older node parses everything a newer one sends, and passes on the same bytes. */
  lemma RelayKeepsBytes(older: Schema, newer: Schema, depth: nat, m: Msg)
    requires WellFormed(newer) && OlderThan(older, newer) && Valid(newer, depth, m)
    requires |Serialize(newer, m)| < TWO_31
    ensures Parse(older, depth, Empty(older), Serialize(newer, m)) == Complete(Relayed(newer, m, |older.fields|))
    ensures Serialize(older, Relayed(newer, m, |older.fields|)) == Serialize(newer, m)
  {
    RelayedValid(older, newer, depth, m);
    PrefixSerializes(older, newer, depth, m, 0);
    SerializeParses(older, depth, Relayed(newer, m, |older.fields|));
  }

  /** A msg_p2p_send that travels through a node that only knows msg_group_send comes back
      whole: receiver_type survives as an unknown field. */
  lemma P2pSendThroughGroupSend(depth: nat, m: Msg)
    requires Valid(S.MsgP2pSend, depth, m) && |Serialize(S.MsgP2pSend, m)| < TWO_31
    ensures var hop := Parse(S.MsgGroupSend, depth, Empty(S.MsgGroupSend), Serialize(S.MsgP2pSend, m));
            && hop.Complete?
            && |hop.msg.unknown| == (if m.slots[3].Absent? then 0 else 1) + |m.unknown|
            && Parse(S.MsgP2pSend, depth, Empty(S.MsgP2pSend), Serialize(S.MsgGroupSend, hop.msg)) == Complete(m)
  {
    S.SchemasWellFormed();
    RelayKeepsBytes(S.MsgGroupSend, S.MsgP2pSend, depth, m);
    SerializeParses(S.MsgP2pSend, depth, m);
    assert ValidValue(S.MsgP2pSend.fields[3].kind, depth, m.slots[3]);
    assert RecordsFrom(S.MsgP2pSend, m, 4) == m.unknown;
    assert RecordsFrom(S.MsgP2pSend, m, 3) == SlotRecords(S.MsgP2pSend.fields[3], m.slots[3]) + m.unknown;
  }
}

/** Repeated numbers: unpacked records and packed runs, in any mixture, mean the same list. */
module PackedForm {
  import opened Wire
  import opened Unknown
  import opened Message
  import opened RoundTrip
  import opened Concat
  import S = Schemas

  /** One record of a repeated number: a single value, or a packed run. */
  datatype Piece = One(n: int) | Pack(ns: seq<int>)

  function EncodeRun(ns: seq<int>): (r: bytes) {
    if ns == [] then [] else EncodeVarint(ToWire(ns[0])) + EncodeRun(ns[1..])
  }

  function EncodePiece(number: nat, p: Piece): (r: bytes) {
    match p
    case One(n) => EncodeTag(number, 0) + EncodeVarint(ToWire(n))
    case Pack(ns) => EncodeTag(number, 2) + EncodeDelimited(EncodeRun(ns))
  }

  function EncodePieces(number: nat, ps: seq<Piece>): (r: bytes) {
    if ps == [] then [] else EncodePiece(number, ps[0]) + EncodePieces(number, ps[1..])
  }

  function Values(p: Piece): seq<int> {
    match p case One(n) => [n] case Pack(ns) => ns
  }

  /** The list that the pieces spell out, in wire order. */
  function AllValues(ps: seq<Piece>): seq<int> {
    if ps == [] then [] else Values(ps[0]) + AllValues(ps[1..])
  }

  predicate ValidPiece(w: Width, p: Piece) {
    (forall n | n in Values(p) :: InRange(w, n)) && (p.Pack? ==> |EncodeRun(p.ns)| < TWO_31)
  }

  lemma {:induction false} ReadPackedInvertsRun(w: Width, ns: seq<int>)
    requires forall n | n in ns :: InRange(w, n)
    ensures ReadPacked(w, EncodeRun(ns)) == Run(ns)
  {
    if ns != [] {
      VarintRoundTrip(ToWire(ns[0]), EncodeRun(ns[1..]));
      WireValueRoundTrip(w, ns[0]);
      assert forall n | n in ns[1..] :: n in ns;
      ReadPackedInvertsRun(w, ns[1..]);
      assert [ns[0]] + ns[1..] == ns;
    }
  }

  lemma {:induction false} ParsePack(s: Schema, depth: nat, m: Msg, i: nat, done: seq<int>, ns: seq<int>, rest: bytes)
    requires WellFormed(s) && |m.slots| == |s.fields| && i < |s.fields| && m.slots[i] == Nums(done)
    requires s.fields[i].kind.Repeated? && ValidPiece(s.fields[i].kind.w, Pack(ns))
    ensures Parse(s, depth, m, EncodeTag(s.fields[i].number, 2) + (EncodeDelimited(EncodeRun(ns)) + rest))
         == Parse(s, depth, Put(m, i, Nums(done + ns)), rest)
  {
    var body := EncodeRun(ns);
    var payload := EncodeDelimited(body) + rest;
    assert payload == EncodeVarint(|body|) + (body + rest);
    VarintRoundTrip(|body|, body + rest);
    assert (body + rest)[..|body|] == body && (body + rest)[|body|..] == rest;
    assert Values(Pack(ns)) == ns;
    ReadPackedInvertsRun(s.fields[i].kind.w, ns);
    StepKnown(s, depth, m, i, 2, payload);
  }

  lemma PiecesSplit(number: nat, ps: seq<Piece>, tail: bytes)
    requires ps != []
    ensures var rest := EncodePieces(number, ps[1..]) + tail;
            EncodePieces(number, ps) + tail
            == match ps[0]
               case One(n) => EncodeTag(number, 0) + (EncodeVarint(ToWire(n)) + rest)
               case Pack(ns) => EncodeTag(number, 2) + (EncodeDelimited(EncodeRun(ns)) + rest)
  {
    hide EncodeTag, EncodeVarint, EncodeDelimited, EncodeRun;
    var next := EncodePieces(number, ps[1..]);
    match ps[0]
    case One(n) => Regroup([], EncodeTag(number, 0), EncodeVarint(ToWire(n)), next, tail);
    case Pack(ns) => Regroup([], EncodeTag(number, 2), EncodeDelimited(EncodeRun(ns)), next, tail);
  }

  lemma NextValues(done: seq<int>, ps: seq<Piece>)
    requires ps != []
    ensures done + Values(ps[0]) + AllValues(ps[1..]) == done + AllValues(ps)
  {
  }

  /** However a list is cut into unpacked records and packed runs, parsing appends the
      same values in the same order and touches nothing else. */
  lemma {:induction false} PiecesParse(s: Schema, depth: nat, m: Msg, i: nat, done: seq<int>, ps: seq<Piece>,
                                       tail: bytes)
    requires WellFormed(s) && |m.slots| == |s.fields| && i < |s.fields| && m.slots[i] == Nums(done)
    requires s.fields[i].kind.Repeated? && forall p | p in ps :: ValidPiece(s.fields[i].kind.w, p)
    ensures Parse(s, depth, m, EncodePieces(s.fields[i].number, ps) + tail)
         == Parse(s, depth, Put(m, i, Nums(done + AllValues(ps))), tail)
    decreases |ps|
  {
    hide Parse;
    var number := s.fields[i].number;
    if ps == [] {
      assert EncodePieces(number, ps) + tail == tail;
      assert done + [] == done && Put(m, i, Nums(done)) == m;
    } else {
      NextValues(done, ps);
      PiecesSplit(number, ps, tail);
      hide EncodePieces, AllValues, WellFormed;
      var rest := EncodePieces(number, ps[1..]) + tail;
      assert ps[0] in ps && forall p | p in ps[1..] :: p in ps;
      match ps[0] {
        case One(n) =>
          assert n in Values(ps[0]);
          ParseNum(s, depth, m, i, done, n, rest);
        case Pack(ns) => ParsePack(s, depth, m, i, done, ns, rest);
      }
      var next := done + Values(ps[0]);
      PiecesParse(s, depth, Put(m, i, Nums(next)), i, next, ps[1..], tail);
      PutPut(m, i, Nums(next), Nums(next + AllValues(ps[1..])));
    }
  }

  /** offline_msg_group_rsp_ack.msg_id: two cuts of one list are indistinguishable. */
  lemma {:induction false} MsgIdCutsAgree(depth: nat, m: Msg, ps: seq<Piece>, qs: seq<Piece>, tail: bytes)
    requires Conforms(S.OfflineMsgGroupRspAck, m)
    requires forall p | p in ps :: ValidPiece(U64, p)
    requires forall q | q in qs :: ValidPiece(U64, q)
    requires AllValues(ps) == AllValues(qs)
    ensures Parse(S.OfflineMsgGroupRspAck, depth, m, EncodePieces(2, ps) + tail)
         == Parse(S.OfflineMsgGroupRspAck, depth, m, EncodePieces(2, qs) + tail)
  {
    S.SchemasWellFormed();
    var s := S.OfflineMsgGroupRspAck;
    assert ConformsValue(s.fields[1].kind, m.slots[1]);
    PiecesParse(s, depth, m, 1, m.slots[1].ns, ps, tail);
    PiecesParse(s, depth, m, 1, m.slots[1].ns, qs, tail);
  }

  // ------------------------------------------------------- a run cut short

  /** A packed run that announces five bytes but brings one. */
  const Short: bytes := [18, 5, 1]
  /** group_id = 7. */
  const GroupId: bytes := [24, 7]

  /** One-byte varints are a packed run of themselves. */
  lemma {:induction false} ReadsOf(bs: bytes)
    requires forall i | 0 <= i < |bs| :: bs[i] < 128
    ensures ReadPacked(U64, bs) == Run(bs)
  {
    if bs != [] {
      ReadsOf(bs[1..]);
      assert [bs[0]] + bs[1..] == bs;
    }
  }

  lemma LengthOfFive(bs: bytes)
    ensures ReadSize([5] + bs) == ReadVarint32([5] + bs) == Got(5, bs)
  {
    assert ([5] + bs)[1..] == bs;
  }

  /** An announced length of five takes whatever is there, up to five bytes. */
  lemma RunOfFive(depth: nat, bs: bytes)
    requires |bs| <= 5 && forall i | 0 <= i < |bs| :: bs[i] < 128
    ensures ReadValue(Repeated(U64), depth, Nums([]), 2, [5] + bs) == Got(Nums(bs), [])
    ensures |bs| < 5 ==> SkipField(18, [5] + bs, depth).Bad?
  {
    hide ReadSize, ReadVarint32, ReadPacked;
    LengthOfFive(bs);
    assert Clamp(bs, 5) == bs && bs[|bs|..] == [];
    ReadsOf(bs);
    assert [] + bs == bs;
    DelimitedAvailable([5] + bs);
  }

  lemma ParseRunOfFive(depth: nat, bs: bytes)
    requires |bs| <= 5 && forall i | 0 <= i < |bs| :: bs[i] < 128
    ensures var s := S.OfflineMsgGroupRspAck;
            Parse(s, depth, Empty(s), [18, 5] + bs) == Complete(Put(Empty(s), 1, Nums(bs)))
    ensures |bs| < 5 ==> !Whole(depth, [18, 5] + bs)
  {
    var s := S.OfflineMsgGroupRspAck;
    S.FindConsecutive(s, 2);
    assert ([18, 5] + bs)[1..] == [5] + bs;
    assert ReadVarint32([18, 5] + bs) == Got(18, [5] + bs);
    RunOfFive(depth, bs);
    assert ReadField(s, depth, Empty(s), 18, [5] + bs) == Got(Put(Empty(s), 1, Nums(bs)), []);
  }

  lemma ParseGroupId(depth: nat)
    ensures var s := S.OfflineMsgGroupRspAck;
            Parse(s, depth, Empty(s), GroupId) == Complete(Put(Empty(s), 2, Num(7)))
  {
    var s := S.OfflineMsgGroupRspAck;
    S.FindConsecutive(s, 3);
    assert ReadVarint32(GroupId) == Got(24, [7]);
    assert ReadField(s, depth, Empty(s), 24, [7]) == Got(Put(Empty(s), 2, Num(7)), []);
  }

  /** Concatenation is not merging after a record that was cut short: both inputs parse, but the
      run swallows the group_id of the second and the field never arrives. */
  lemma {:induction false} ShortRunSwallowsNextField(depth: nat)
    ensures var s := S.OfflineMsgGroupRspAck;
            && Parse(s, depth, Empty(s), Short) == Complete(Put(Empty(s), 1, Nums([1])))
            && Parse(s, depth, Empty(s), GroupId) == Complete(Put(Empty(s), 2, Num(7)))
            && Parse(s, depth, Empty(s), Short + GroupId) == Complete(Put(Empty(s), 1, Nums([1, 24, 7])))
            && !Whole(depth, Short)
  {
    ParseGroupId(depth);
    hide Parse, Whole;
    ParseRunOfFive(depth, [1]);
    ParseRunOfFive(depth, [1, 24, 7]);
    assert Short == [18, 5] + [1] && Short + GroupId == [18, 5] + [1, 24, 7];
  }
}

/**
  Field order.  The records of a message may arrive in any order: only the
  relative order of records for the same field, and of unknown records, counts.
 */
module WireOrder {
  import opened Wire
  import opened Unknown
  import opened Message
  import opened MergeLaws
  import opened Concat

  /** A chunk of input that is exactly one wire record: a tag and its payload. */
  predicate WholeRecord(depth: nat, c: bytes) {
    && ReadVarint32(c).Got?
    && ReadVarint32(c).value != 0
    && SkipField(ReadVarint32(c).value, ReadVarint32(c).rest, depth).Got?
    && SkipField(ReadVarint32(c).value, ReadVarint32(c).rest, depth).rest == []
  }

  predicate WholeRecords(depth: nat, cs: seq<bytes>) {
    forall c | c in cs :: WholeRecord(depth, c)
  }

  function Flatten(cs: seq<bytes>): (r: bytes) {
    if cs == [] then [] else cs[0] + Flatten(cs[1..])
  }

  /** The slot a record goes to; one past the last slot for unknown records. */
  function SlotOf(s: Schema, c: bytes): (i: nat)
    requires ReadVarint32(c).Got?
    ensures i <= |s.fields|
  {
    SlotOfTag(s, ReadVarint32(c).value)
  }

  /** The records for one slot, in the order they arrive. */
  function Only(s: Schema, depth: nat, cs: seq<bytes>, i: nat): (r: seq<bytes>)
    requires WholeRecords(depth, cs)
    ensures forall c | c in r :: c in cs
  {
    if cs == [] then []
    else
      assert WholeRecord(depth, cs[0]);
      (if SlotOf(s, cs[0]) == i then [cs[0]] else []) + Only(s, depth, cs[1..], i)
  }

  /** Merging the records one by one, each parsed on its own into a fresh message. */
  ghost function Fold(s: Schema, depth: nat, m: Msg, cs: seq<bytes>): Outcome
    decreases |cs|
  {
    if cs == [] then Complete(m)
    else match Parse(s, depth, Empty(s), cs[0])
      case Complete(x) => Fold(s, depth, Merge(m, x), cs[1..])
      case _ => Failed
  }

  lemma {:induction false} ParseIsFold(s: Schema, depth: nat, m: Msg, cs: seq<bytes>)
    requires Conforms(s, m) && WholeRecords(depth, cs)
    ensures Parse(s, depth, m, Flatten(cs)) == Fold(s, depth, m, cs)
    decreases |cs|
  {
    if cs != [] {
      var c := cs[0];
      assert WholeRecord(depth, c);
      ParseConcat(s, depth, m, c, Flatten(cs[1..]));
      EmptyConforms(s);
      MergeRightIdentity(s, m);
      ParseTranslates(s, depth, m, Empty(s), c);
      ParseConcat(s, depth, Empty(s), c, []);
      var r := Parse(s, depth, Empty(s), c);
      if r.Complete? {
        ParseConforms(s, depth, Empty(s), c);
        MergeConforms(s, m, r.msg);
        ParseIsFold(s, depth, Merge(m, r.msg), cs[1..]);
      }
    }
  }

  /** A single record touches its own slot and nothing else. */
  lemma OneRecord(s: Schema, depth: nat, c: bytes, i: nat)
    requires WholeRecord(depth, c) && i < |s.fields|
    ensures var r := Parse(s, depth, Empty(s), c);
            r.Complete? && SlotOf(s, c) != i ==> i < |r.msg.slots| && r.msg.slots[i] == Default(s.fields[i].kind)
  {
    var Got(tag, rest) := ReadVarint32(c);
    ReadFieldExtend(s, depth, Empty(s), tag, rest, []);
  }

  lemma OneKnownRecord(s: Schema, depth: nat, c: bytes)
    requires WholeRecord(depth, c) && SlotOf(s, c) != |s.fields|
    ensures var r := Parse(s, depth, Empty(s), c); r.Complete? ==> r.msg.unknown == []
  {
    var Got(tag, rest) := ReadVarint32(c);
    ReadFieldExtend(s, depth, Empty(s), tag, rest, []);
  }

  ghost function FoldSlot(s: Schema, depth: nat, v: Value, cs: seq<bytes>, i: nat): Value
    requires i < |s.fields|
    decreases |cs|
  {
    if cs == [] then v
    else
      var r := Parse(s, depth, Empty(s), cs[0]);
      FoldSlot(s, depth, if r.Complete? && i < |r.msg.slots| then MergeValue(v, r.msg.slots[i]) else v, cs[1..], i)
  }

  ghost function FoldUnknown(s: Schema, depth: nat, u: seq<Record>, cs: seq<bytes>): seq<Record>
    decreases |cs|
  {
    if cs == [] then u
    else
      var r := Parse(s, depth, Empty(s), cs[0]);
      FoldUnknown(s, depth, if r.Complete? then u + r.msg.unknown else u, cs[1..])
  }

  /** A slot of the result depends only on the records for that slot. */
  lemma {:induction false} FoldSlotOnly(s: Schema, depth: nat, m: Msg, cs: seq<bytes>, i: nat)
    requires Conforms(s, m) && WholeRecords(depth, cs) && i < |s.fields|
    ensures var r := Fold(s, depth, m, cs);
            r.Complete? ==> |r.msg.slots| == |s.fields|
                            && r.msg.slots[i] == FoldSlot(s, depth, m.slots[i], Only(s, depth, cs, i), i)
    decreases |cs|
  {
    if cs != [] {
      var c := cs[0];
      assert WholeRecord(depth, c);
      var r := Parse(s, depth, Empty(s), c);
      if r.Complete? {
        EmptyConforms(s);
        ParseConforms(s, depth, Empty(s), c);
        MergeConforms(s, m, r.msg);
        OneRecord(s, depth, c, i);
        assert ConformsValue(s.fields[i].kind, m.slots[i]);
        MergeDefaultRight(s.fields[i].kind, m.slots[i]);
        FoldSlotOnly(s, depth, Merge(m, r.msg), cs[1..], i);
        OnlySplit(s, depth, cs, i);
      }
    }
  }

  lemma OnlySplit(s: Schema, depth: nat, cs: seq<bytes>, i: nat)
    requires cs != [] && WholeRecord(depth, cs[0]) && WholeRecords(depth, cs)
    ensures SlotOf(s, cs[0]) == i ==> Only(s, depth, cs, i)[0] == cs[0]
                                      && Only(s, depth, cs, i)[1..] == Only(s, depth, cs[1..], i)
    ensures SlotOf(s, cs[0]) != i ==> Only(s, depth, cs, i) == Only(s, depth, cs[1..], i)
  {
  }

  lemma {:induction false} FoldUnknownOnly(s: Schema, depth: nat, m: Msg, cs: seq<bytes>)
    requires WholeRecords(depth, cs)
    ensures var r := Fold(s, depth, m, cs);
            r.Complete? ==> r.msg.unknown == FoldUnknown(s, depth, m.unknown, Only(s, depth, cs, |s.fields|))
    decreases |cs|
  {
    if cs != [] {
      var c := cs[0];
      assert WholeRecord(depth, c);
      var r := Parse(s, depth, Empty(s), c);
      if r.Complete? {
        if SlotOf(s, c) != |s.fields| { OneKnownRecord(s, depth, c); assert m.unknown + [] == m.unknown; }
        FoldUnknownOnly(s, depth, Merge(m, r.msg), cs[1..]);
        OnlySplit(s, depth, cs, |s.fields|);
      }
    }
  }

  /** The whole parse fails exactly when one of its records fails on its own. */
  lemma {:induction false} FoldFails(s: Schema, depth: nat, m: Msg, cs: seq<bytes>)
    ensures Fold(s, depth, m, cs).Complete? || Fold(s, depth, m, cs).Failed?
    ensures Fold(s, depth, m, cs).Complete? <==> forall c | c in cs :: Parse(s, depth, Empty(s), c).Complete?
    decreases |cs|
  {
    if cs != [] {
      var r := Parse(s, depth, Empty(s), cs[0]);
      assert cs[0] in cs && forall c | c in cs[1..] :: c in cs;
      if r.Complete? {
        FoldFails(s, depth, Merge(m, r.msg), cs[1..]);
        assert forall c | c in cs :: c == cs[0] || c in cs[1..];
      }
    }
  }

  lemma {:induction false} OnlyComplete(s: Schema, depth: nat, cs: seq<bytes>, c: bytes)
    requires WholeRecords(depth, cs) && c in cs
    ensures c in Only(s, depth, cs, SlotOf(s, c))
    decreases |cs|
  {
    OnlySplit(s, depth, cs, SlotOf(s, c));
    if c != cs[0] {
      OnlyComplete(s, depth, cs[1..], c);
    }
  }

  /** The two inputs carry the same records for every slot, in the same order. */
  ghost predicate SameBySlot(s: Schema, depth: nat, cs: seq<bytes>, ds: seq<bytes>)
    requires WholeRecords(depth, cs) && WholeRecords(depth, ds)
  {
    forall i | 0 <= i <= |s.fields| :: Only(s, depth, cs, i) == Only(s, depth, ds, i)
  }

  lemma FoldFailsTogether(s: Schema, depth: nat, m: Msg, cs: seq<bytes>, ds: seq<bytes>)
    requires WholeRecords(depth, cs) && WholeRecords(depth, ds) && SameBySlot(s, depth, cs, ds)
    requires Fold(s, depth, m, ds).Complete?
    ensures Fold(s, depth, m, cs).Complete?
  {
    FoldFails(s, depth, m, cs);
    FoldFails(s, depth, m, ds);
    forall c | c in cs
      ensures Parse(s, depth, Empty(s), c).Complete?
    {
      OnlyComplete(s, depth, cs, c);
      assert c in Only(s, depth, ds, SlotOf(s, c));
    }
  }

  /** Any reordering that keeps each slot's records, and the unknown ones, in their own
      order gives the same outcome from the same starting message. */
  lemma {:induction false} WireOrderIrrelevant(s: Schema, depth: nat, m: Msg, cs: seq<bytes>, ds: seq<bytes>)
    requires Conforms(s, m) && WholeRecords(depth, cs) && WholeRecords(depth, ds)
    requires SameBySlot(s, depth, cs, ds)
    ensures Parse(s, depth, m, Flatten(cs)) == Parse(s, depth, m, Flatten(ds))
  {
    ParseIsFold(s, depth, m, cs);
    ParseIsFold(s, depth, m, ds);
    var r, q := Fold(s, depth, m, cs), Fold(s, depth, m, ds);
    FoldFails(s, depth, m, cs);
    FoldFails(s, depth, m, ds);
    if r.Complete? { FoldFailsTogether(s, depth, m, ds, cs); }
    if q.Complete? { FoldFailsTogether(s, depth, m, cs, ds); }
    if r.Complete? && q.Complete? {
      forall i | 0 <= i < |s.fields|
        ensures |r.msg.slots| == |s.fields| == |q.msg.slots| && r.msg.slots[i] == q.msg.slots[i]
      {
        FoldSlotOnly(s, depth, m, cs, i);
        FoldSlotOnly(s, depth, m, ds, i);
      }
      FoldLength(s, depth, m, cs);
      FoldLength(s, depth, m, ds);
      FoldUnknownOnly(s, depth, m, cs);
      FoldUnknownOnly(s, depth, m, ds);
    }
  }

  lemma {:induction false} FoldLength(s: Schema, depth: nat, m: Msg, cs: seq<bytes>)
    requires Conforms(s, m)
    ensures Fold(s, depth, m, cs).Complete? ==> |Fold(s, depth, m, cs).msg.slots| == |s.fields|
    decreases |cs|
  {
    if cs != [] {
      var r := Parse(s, depth, Empty(s), cs[0]);
      if r.Complete? {
        EmptyConforms(s);
        ParseConforms(s, depth, Empty(s), cs[0]);
        MergeConforms(s, m, r.msg);
        FoldLength(s, depth, Merge(m, r.msg), cs[1..]);
      }
    }
  }

  // --------------------------------------------- every whole input is records

  /** What was consumed, on its own, reads the same and leaves nothing. */
  predicate Exact<T(==)>(bs: bytes, whole: Read<T>, part: Read<T>) {
    whole.Got? && |whole.rest| <= |bs| && bs[|bs| - |whole.rest|..] == whole.rest && part == Got(whole.value, [])
  }

  function Used(bs: bytes, rest: bytes): bytes
    requires |rest| <= |bs|
  {
    bs[..|bs| - |rest|]
  }

  lemma {:induction false} GroupsExact(bs: bytes, limit: nat)
    requires ReadGroups(bs, limit).Got?
    ensures Exact(bs, ReadGroups(bs, limit), ReadGroups(Used(bs, ReadGroups(bs, limit).rest), limit))
  {
    var rest := ReadGroups(bs, limit).rest;
    var u := Used(bs, rest);
    if bs[0] < 128 {
      assert u == [bs[0]];
    } else {
      GroupsExact(bs[1..], limit - 1);
      assert u[1..] == Used(bs[1..], rest);
      assert bs[|bs| - |rest|..] == bs[1..][|bs| - 1 - |rest|..];
    }
  }

  lemma VarintExact(bs: bytes)
    requires ReadVarint64(bs).Got?
    ensures Exact(bs, ReadVarint64(bs), ReadVarint64(Used(bs, ReadVarint64(bs).rest)))
    ensures Exact(bs, ReadVarint32(bs), ReadVarint32(Used(bs, ReadVarint32(bs).rest)))
  {
    GroupsExact(bs, MAX_VARINT_BYTES);
  }

  lemma TakeExact(bs: bytes, n: nat)
    requires n <= |bs|
    ensures Exact(bs, Take(bs, n), Take(Used(bs, Take(bs, n).rest), n))
  {
    assert Used(bs, Take(bs, n).rest) == bs[..n];
    assert bs[..n][..n] == bs[..n] && bs[..n][n..] == [];
  }

  /** Joining a read with the read of what it left. */
  lemma JoinUsed(bs: bytes, mid: bytes, rest: bytes)
    requires |rest| <= |mid| <= |bs| && bs[|bs| - |mid|..] == mid && mid[|mid| - |rest|..] == rest
    ensures bs[|bs| - |rest|..] == rest
    ensures Used(bs, rest) == Used(bs, mid) + Used(mid, rest)
  {
    assert bs[|bs| - |rest|..] == mid[|mid| - |rest|..];
    assert bs == bs[..|bs| - |mid|] + mid;
  }

  lemma DelimitedExact(bs: bytes)
    requires ReadDelimited(bs).Got?
    ensures Exact(bs, ReadDelimited(bs), ReadDelimited(Used(bs, ReadDelimited(bs).rest)))
  {
    VarintExact(bs);
    var Got(n, mid) := ReadVarint32(bs);
    TakeExact(mid, n);
    var rest := ReadDelimited(bs).rest;
    JoinUsed(bs, mid, rest);
    VarintExtend(Used(bs, mid), Used(mid, rest));
    assert [] + Used(mid, rest) == Used(mid, rest);
  }

  lemma {:induction false} SkipFieldExact(tag: nat, bs: bytes, depth: nat)
    requires SkipField(tag, bs, depth).Got?
    ensures Exact(bs, SkipField(tag, bs, depth), SkipField(tag, Used(bs, SkipField(tag, bs, depth).rest), depth))
    decreases |bs|, 1
  {
    var wireType := tag % 8;
    if wireType == 0 {
      VarintExact(bs);
    } else if wireType == 1 {
      TakeExact(bs, 8);
    } else if wireType == 2 {
      DelimitedExact(bs);
    } else if wireType == 3 {
      SkipGroupExact(tag / 8, bs, depth - 1);
    } else {
      TakeExact(bs, 4);
    }
  }

  lemma {:induction false} SkipGroupExact(number: nat, bs: bytes, depth: nat)
    requires SkipGroup(number, bs, depth).Got?
    ensures Exact(bs, SkipGroup(number, bs, depth), SkipGroup(number, Used(bs, SkipGroup(number, bs, depth).rest),
                                                              depth))
    decreases |bs|, 0
  {
    VarintExact(bs);
    if ReadVarint32(bs).value % 8 != 4 {
      GroupFieldExact(number, bs, depth);
    }
  }

  lemma {:induction false} GroupFieldExact(number: nat, bs: bytes, depth: nat)
    requires SkipGroup(number, bs, depth).Got? && ReadVarint32(bs).Got?
    requires ReadVarint32(bs).value % 8 != 4 && ReadVarint32(bs).value != 0
    requires SkipField(ReadVarint32(bs).value, ReadVarint32(bs).rest, depth).Got?
    ensures Exact(bs, SkipGroup(number, bs, depth), SkipGroup(number, Used(bs, SkipGroup(number, bs, depth).rest),
                                                              depth))
    decreases |bs|, 0, 0
  {
    hide SkipField, SkipGroup, ReadVarint32, ReadVarint64;
    ReadShrinks(bs);
    GroupStep(number, bs, depth);
    var Got(tag, mid) := ReadVarint32(bs);
    var Got(p, mid') := SkipField(tag, mid, depth);
    SkipFieldExact(tag, mid, depth);
    SkipGroupExact(number, mid', depth);
    GroupFieldJoin(number, bs, mid, mid', SkipGroup(number, mid', depth).rest, depth);
  }

  predicate Suffix(bs: bytes, rest: bytes) { |rest| <= |bs| && bs[|bs| - |rest|..] == rest }

  /** A tag, a field and the rest of a group, each exact, make up an exact group. */
  lemma GroupFieldJoin(number: nat, bs: bytes, mid: bytes, mid': bytes, rest: bytes, depth: nat)
    requires Suffix(bs, mid) && Suffix(mid, mid') && Suffix(mid', rest)
    requires ReadVarint32(bs).Got? && ReadVarint32(bs).rest == mid
    requires ReadVarint32(bs).value % 8 != 4 && ReadVarint32(bs).value != 0
    requires var field := SkipField(ReadVarint32(bs).value, Used(mid, mid'), depth); field.Got? && field.rest == []
    requires var tail := SkipGroup(number, Used(mid', rest), depth); tail.Got? && tail.rest == []
    ensures Suffix(bs, rest)
    ensures var tag := ReadVarint32(bs).value;
            SkipGroup(number, Used(bs, rest), depth)
            == Got([Record(tag / 8, SkipField(tag, Used(mid, mid'), depth).value)]
                   + SkipGroup(number, Used(mid', rest), depth).value, [])
  {
    hide SkipField, SkipGroup, ReadVarint32, Used;
    JoinUsed(mid, mid', rest);
    JoinUsed(bs, mid, rest);
    VarintThenRest(bs, mid, Used(mid, rest));
    SkipThenRest(ReadVarint32(bs).value, Used(mid, mid'), Used(mid', rest), depth);
    GroupStep(number, Used(bs, rest), depth);
  }

  /** A field cut out exactly, followed by something else. */
  lemma SkipThenRest(tag: nat, field: bytes, x: bytes, depth: nat)
    requires SkipField(tag, field, depth).Got? && SkipField(tag, field, depth).rest == []
    ensures SkipField(tag, field + x, depth) == Got(SkipField(tag, field, depth).value, x)
  {
    SkipFieldExtend(tag, field, depth, x);
    assert [] + x == x;
  }

  lemma ReadShrinks(bs: bytes)
    requires ReadVarint32(bs).Got?
    ensures |ReadVarint32(bs).rest| < |bs| && ReadVarint64(bs).Got?
    ensures bs[|bs| - |ReadVarint32(bs).rest|..] == ReadVarint32(bs).rest
  {
    VarintExact(bs);
  }

  /** The varint at the front of `bs`, followed by something else. */
  lemma VarintThenRest(bs: bytes, mid: bytes, x: bytes)
    requires ReadVarint32(bs).Got? && ReadVarint32(bs).rest == mid
    ensures |mid| <= |bs| && ReadVarint32(Used(bs, mid) + x) == Got(ReadVarint32(bs).value, x)
  {
    VarintExact(bs);
    VarintExtend(Used(bs, mid), x);
    assert [] + x == x;
  }

  /** The tag and payload at the front of `bs`, cut out, are one whole record. */
  lemma RecordExact(bs: bytes, depth: nat)
    requires ReadVarint32(bs).Got? && SkipField(ReadVarint32(bs).value, ReadVarint32(bs).rest, depth).Got?
    ensures var Got(tag, mid) := ReadVarint32(bs);
            var rest := SkipField(tag, mid, depth).rest;
            && |rest| < |bs| && bs[|bs| - |rest|..] == rest
            && ReadVarint32(Used(bs, rest)).Got? && ReadVarint32(Used(bs, rest)).value == tag
            && SkipField(tag, ReadVarint32(Used(bs, rest)).rest, depth) == Got(SkipField(tag, mid, depth).value, [])
  {
    hide SkipField, ReadVarint32, ReadVarint64;
    ReadShrinks(bs);
    var Got(tag, mid) := ReadVarint32(bs);
    SkipFieldExact(tag, mid, depth);
    var rest := SkipField(tag, mid, depth).rest;
    JoinUsed(bs, mid, rest);
    VarintThenRest(bs, mid, Used(mid, rest));
  }

  /** Unfolding a group by one field. */
  lemma GroupStep(number: nat, bs: bytes, depth: nat)
    requires ReadVarint32(bs).Got? && ReadVarint32(bs).value % 8 != 4 && ReadVarint32(bs).value != 0
    requires SkipField(ReadVarint32(bs).value, ReadVarint32(bs).rest, depth).Got?
    ensures var Got(tag, mid) := ReadVarint32(bs);
            var Got(p, mid') := SkipField(tag, mid, depth);
            var r := SkipGroup(number, mid', depth);
            SkipGroup(number, bs, depth) == if r.Got? then Got([Record(tag / 8, p)] + r.value, r.rest) else Bad
  {
  }

  lemma FirstRecord(depth: nat, bs: bytes)
    requires bs != [] && Whole(depth, bs)
    ensures var Got(tag, mid) := ReadVarint32(bs);
            var rest := SkipField(tag, mid, depth).rest;
            |rest| < |bs| && WholeRecord(depth, Used(bs, rest)) && bs == Used(bs, rest) + rest
  {
    RecordExact(bs, depth);
  }

  /** The records of an input, in wire order. */
  ghost function Split(depth: nat, bs: bytes): (cs: seq<bytes>)
    requires Whole(depth, bs)
    ensures WholeRecords(depth, cs) && Flatten(cs) == bs
    decreases |bs|
  {
    if bs == [] then []
    else
      FirstRecord(depth, bs);
      var rest := SkipField(ReadVarint32(bs).value, ReadVarint32(bs).rest, depth).rest;
      [Used(bs, rest)] + Split(depth, rest)
  }

  /** Two inputs made of the same records per slot parse alike, stated on the raw bytes. */
  lemma {:induction false} InputOrderIrrelevant(s: Schema, depth: nat, m: Msg, a: bytes, b: bytes)
    requires Conforms(s, m) && Whole(depth, a) && Whole(depth, b)
    ensures SameBySlot(s, depth, Split(depth, a), Split(depth, b)) ==> Parse(s, depth, m, a) == Parse(s, depth, m, b)
  {
    if SameBySlot(s, depth, Split(depth, a), Split(depth, b)) {
      WireOrderIrrelevant(s, depth, m, Split(depth, a), Split(depth, b));
    }
  }
}

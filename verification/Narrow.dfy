/**
  Forward compatibility in full.  An older schema may lack any of the fields, not
  only the last ones.  The node that uses it then writes the records in another
  order, and still nothing is lost.
 */
module Narrow {
  import opened Wire
  import opened Unknown
  import opened Message
  import opened RoundTrip
  import opened Relay
  import W = WireOrder
  import L = MergeLaws

  /** The elements whose mark is set. */
  function Kept<T>(xs: seq<T>, keep: seq<bool>): (r: seq<T>)
    requires |xs| == |keep|
    ensures |r| <= |xs|
  {
    if xs == [] then [] else (if keep[0] then [xs[0]] else []) + Kept(xs[1..], keep[1..])
  }

  /** The records of all fields, of the kept ones, and of the others, each in field order. */
  function AllRecords(fs: seq<Field>, vs: seq<Value>): (rs: seq<Record>)
    requires |fs| == |vs|
  {
    if fs == [] then [] else SlotRecords(fs[0], vs[0]) + AllRecords(fs[1..], vs[1..])
  }

  function Part(fs: seq<Field>, vs: seq<Value>, keep: seq<bool>, which: bool): (rs: seq<Record>)
    requires |fs| == |vs| == |keep|
  {
    if fs == [] then []
    else (if keep[0] == which then SlotRecords(fs[0], vs[0]) else []) + Part(fs[1..], vs[1..], keep[1..], which)
  }

  function NarrowSchema(s: Schema, keep: seq<bool>): Schema
    requires |keep| == |s.fields|
  {
    Schema(Kept(s.fields, keep))
  }

  /** The older node's view: the fields it knows, and the records of the others in front of the unknown ones. */
  function Narrowed(s: Schema, m: Msg, keep: seq<bool>): Msg
    requires |keep| == |s.fields| == |m.slots|
  {
    Msg(Kept(m.slots, keep), Part(s.fields, m.slots, keep, false) + m.unknown)
  }

  // ------------------------------------------------------ the narrow schema

  /** Where a kept field and its value come from. */
  lemma {:induction false} KeptAt(fs: seq<Field>, vs: seq<Value>, keep: seq<bool>, i: nat) returns (j: nat)
    requires |fs| == |vs| == |keep| && i < |Kept(fs, keep)|
    ensures |Kept(vs, keep)| == |Kept(fs, keep)| && j < |fs| && keep[j]
    ensures Kept(fs, keep)[i] == fs[j] && Kept(vs, keep)[i] == vs[j]
  {
    if keep[0] && i == 0 {
      KeptCounts(fs, vs, keep);
      j := 0;
    } else {
      var j' := KeptAt(fs[1..], vs[1..], keep[1..], if keep[0] then i - 1 else i);
      j := j' + 1;
    }
  }

  lemma {:induction false} KeptCounts<T, U>(xs: seq<T>, ys: seq<U>, keep: seq<bool>)
    requires |xs| == |ys| == |keep|
    ensures |Kept(xs, keep)| == |Kept(ys, keep)|
  {
    if xs != [] { KeptCounts(xs[1..], ys[1..], keep[1..]); }
  }

  /** Which index a kept field gets. */
  lemma {:induction false} KeptIndex(fs: seq<Field>, keep: seq<bool>, j: nat) returns (i: nat)
    requires |fs| == |keep| && j < |fs| && keep[j]
    ensures i < |Kept(fs, keep)| && Kept(fs, keep)[i] == fs[j]
  {
    if j == 0 {
      i := 0;
    } else {
      var i' := KeptIndex(fs[1..], keep[1..], j - 1);
      i := if keep[0] then i' + 1 else i';
    }
  }

  predicate Ascending(fs: seq<Field>) { forall i, j | 0 <= i < j < |fs| :: fs[i].number < fs[j].number }

  lemma {:induction false} KeptAscending(fs: seq<Field>, keep: seq<bool>)
    requires |fs| == |keep| && Ascending(fs)
    ensures Ascending(Kept(fs, keep))
  {
    if fs != [] {
      var tail := Kept(fs[1..], keep[1..]);
      KeptAscending(fs[1..], keep[1..]);
      forall i | 0 <= i < |tail| ensures fs[0].number < tail[i].number {
        var vs := seq(|fs| - 1, _ => Absent);
        var j := KeptAt(fs[1..], vs, keep[1..], i);
      }
    }
  }

  lemma NarrowWellFormed(s: Schema, keep: seq<bool>)
    requires WellFormed(s) && |keep| == |s.fields|
    ensures WellFormed(NarrowSchema(s, keep))
  {
    var n := NarrowSchema(s, keep);
    KeptAscending(s.fields, keep);
    forall i | 0 <= i < |n.fields|
      ensures 1 <= n.fields[i].number <= MAX_FIELD_NUMBER && WellFormedKind(n.fields[i].kind)
    {
      var vs := seq(|s.fields|, _ => Absent);
      var j := KeptAt(s.fields, vs, keep, i);
    }
  }

  function TagOf(r: Record): nat { MakeTag(r.number, WireTypeOf(r.payload)) }

  /** The slot a record goes to. */
  function SlotOfRecord(s: Schema, r: Record): (i: nat)
    ensures i <= |s.fields|
  {
    SlotOfTag(s, TagOf(r))
  }

  /** The narrow schema knows the records of kept fields, and no others. */
  lemma NarrowKnows(s: Schema, keep: seq<bool>, r: Record)
    requires WellFormed(s) && |keep| == |s.fields|
    ensures WellFormed(NarrowSchema(s, keep))
    ensures Knows(NarrowSchema(s, keep), TagOf(r)) <==> Knows(s, TagOf(r)) && keep[Find(s.fields, TagOf(r) / 8)]
  {
    var n := NarrowSchema(s, keep);
    NarrowWellFormed(s, keep);
    var i, j := Find(n.fields, TagOf(r) / 8), Find(s.fields, TagOf(r) / 8);
    if i < |n.fields| {
      var vs := seq(|s.fields|, _ => Absent);
      var j' := KeptAt(s.fields, vs, keep, i);
      FindField(s, j');
    }
    if j < |s.fields| && keep[j] {
      var i' := KeptIndex(s.fields, keep, j);
      FindField(n, i');
    }
  }

  lemma {:induction false} SlotRecordKnown(s: Schema, depth: nat, m: Msg, j: nat, r: Record)
    requires WellFormed(s) && Valid(s, depth, m) && j < |s.fields| && r in SlotRecords(s.fields[j], m.slots[j])
    ensures Knows(s, TagOf(r)) && Find(s.fields, TagOf(r) / 8) == j
  {
    hide Serialize;
    assert ValidValue(s.fields[j].kind, depth, m.slots[j]);
    FindField(s, j);
  }

  // ------------------------------------------------------- picking by slot

  function Pick(s: Schema, rs: seq<Record>, i: nat): (r: seq<Record>) {
    if rs == [] then [] else (if SlotOfRecord(s, rs[0]) == i then [rs[0]] else []) + Pick(s, rs[1..], i)
  }

  lemma {:induction false} PickConcat(s: Schema, a: seq<Record>, b: seq<Record>, i: nat)
    ensures Pick(s, a + b, i) == Pick(s, a, i) + Pick(s, b, i)
  {
    if a == [] {
      assert a + b == b;
    } else {
      hide SlotOfRecord;
      assert (a + b)[1..] == a[1..] + b && (a + b)[0] == a[0];
      PickConcat(s, a[1..], b, i);
    }
  }

  lemma {:induction false} PickNone(s: Schema, rs: seq<Record>, i: nat)
    requires forall r | r in rs :: SlotOfRecord(s, r) != i
    ensures Pick(s, rs, i) == []
  {
    if rs != [] {
      assert rs[0] in rs && forall r | r in rs[1..] :: r in rs;
      PickNone(s, rs[1..], i);
    }
  }

  /** The records for slot `i` all stand on one side of the cut. */
  ghost predicate OneSided(s: Schema, i: nat, fs: seq<Field>, vs: seq<Value>, keep: seq<bool>, side: bool)
    requires |fs| == |vs| == |keep|
  {
    forall j, r | 0 <= j < |fs| && r in SlotRecords(fs[j], vs[j]) && keep[j] != side :: SlotOfRecord(s, r) != i
  }

  lemma OneSidedTail(s: Schema, i: nat, fs: seq<Field>, vs: seq<Value>, keep: seq<bool>, side: bool)
    requires |fs| == |vs| == |keep| && fs != [] && OneSided(s, i, fs, vs, keep, side)
    ensures OneSided(s, i, fs[1..], vs[1..], keep[1..], side)
    ensures keep[0] != side ==> forall r | r in SlotRecords(fs[0], vs[0]) :: SlotOfRecord(s, r) != i
  {
    hide SlotRecords, SlotOfRecord;
    forall j, r | 0 <= j < |fs| - 1 && r in SlotRecords(fs[1..][j], vs[1..][j]) && keep[1..][j] != side
      ensures SlotOfRecord(s, r) != i
    {
      assert r in SlotRecords(fs[j + 1], vs[j + 1]) && keep[j + 1] != side;
    }
  }

  lemma PickPart(s: Schema, i: nat, fs: seq<Field>, vs: seq<Value>, keep: seq<bool>, which: bool)
    requires |fs| == |vs| == |keep| && fs != []
    ensures Pick(s, Part(fs, vs, keep, which), i)
         == (if keep[0] == which then Pick(s, SlotRecords(fs[0], vs[0]), i) else [])
            + Pick(s, Part(fs[1..], vs[1..], keep[1..], which), i)
  {
    hide SlotRecords, SlotOfRecord, Pick;
    var tail := Part(fs[1..], vs[1..], keep[1..], which);
    PickConcat(s, SlotRecords(fs[0], vs[0]), tail, i);
    assert [] + tail == tail && [] + Pick(s, tail, i) == Pick(s, tail, i);
  }

  lemma {:induction false} PickParts(s: Schema, i: nat, fs: seq<Field>, vs: seq<Value>, keep: seq<bool>, side: bool)
    requires |fs| == |vs| == |keep| && OneSided(s, i, fs, vs, keep, side)
    ensures Pick(s, Part(fs, vs, keep, !side), i) == []
    ensures Pick(s, Part(fs, vs, keep, side), i) == Pick(s, AllRecords(fs, vs), i)
  {
    if fs != [] {
      hide SlotRecords, SlotOfRecord, Part, Pick, OneSided;
      var rs := SlotRecords(fs[0], vs[0]);
      OneSidedTail(s, i, fs, vs, keep, side);
      PickParts(s, i, fs[1..], vs[1..], keep[1..], side);
      if keep[0] != side { PickNone(s, rs, i); }
      PickConcat(s, rs, AllRecords(fs[1..], vs[1..]), i);
      PickPart(s, i, fs, vs, keep, side);
      PickPart(s, i, fs, vs, keep, !side);
    }
  }

  /** The newer node's records, and the same records as the older node writes them. */
  function Sent(s: Schema, m: Msg): seq<Record>
    requires |s.fields| == |m.slots|
  {
    AllRecords(s.fields, m.slots) + m.unknown
  }

  function Resent(s: Schema, m: Msg, keep: seq<bool>): seq<Record>
    requires |keep| == |s.fields| == |m.slots|
  {
    Part(s.fields, m.slots, keep, true) + (Part(s.fields, m.slots, keep, false) + m.unknown)
  }

  lemma PickResent(x: Schema, i: nat, s: Schema, m: Msg, keep: seq<bool>, side: bool)
    requires |keep| == |s.fields| == |m.slots| && OneSided(x, i, s.fields, m.slots, keep, side)
    requires side ==> forall r | r in m.unknown :: SlotOfRecord(x, r) != i
    ensures Pick(x, Sent(s, m), i) == Pick(x, Resent(s, m, keep), i)
  {
    hide SlotOfRecord, Pick, Part, AllRecords;
    var a, b := Part(s.fields, m.slots, keep, true), Part(s.fields, m.slots, keep, false);
    PickParts(x, i, s.fields, m.slots, keep, side);
    PickConcat(x, AllRecords(s.fields, m.slots), m.unknown, i);
    PickConcat(x, a, b + m.unknown, i);
    PickConcat(x, b, m.unknown, i);
    if side { PickNone(x, m.unknown, i); }
  }

  /** Both schemas see the same records per slot, before and after. */
  lemma {:induction false} PickSame(s: Schema, depth: nat, m: Msg, keep: seq<bool>, i: nat)
    requires WellFormed(s) && Valid(s, depth, m) && |keep| == |s.fields|
    ensures i <= |s.fields| ==> Pick(s, Sent(s, m), i) == Pick(s, Resent(s, m, keep), i)
    ensures var n := NarrowSchema(s, keep);
            i <= |n.fields| ==> Pick(n, Sent(s, m), i) == Pick(n, Resent(s, m, keep), i)
  {
    hide SlotRecords, Pick, Sent, Resent, ValidValue;
    var n := NarrowSchema(s, keep);
    forall j, r | 0 <= j < |s.fields| && r in SlotRecords(s.fields[j], m.slots[j])
      ensures SlotOfRecord(s, r) == j && (SlotOfRecord(n, r) < |n.fields| <==> keep[j])
    {
      SlotRecordKnown(s, depth, m, j, r);
      NarrowKnows(s, keep, r);
    }
    forall r | r in m.unknown
      ensures SlotOfRecord(s, r) == |s.fields| && SlotOfRecord(n, r) == |n.fields|
    {
      NarrowKnows(s, keep, r);
    }
    if i <= |s.fields| { PickResent(s, i, s, m, keep, i < |s.fields| && keep[i]); }
    if i <= |n.fields| { PickResent(n, i, s, m, keep, i < |n.fields|); }
  }

  // ------------------------------------------------ from records to chunks

  function Chunks(rs: seq<Record>): (cs: seq<bytes>)
    ensures |cs| == |rs|
  {
    if rs == [] then [] else [EncodeRecord(rs[0])] + Chunks(rs[1..])
  }

  lemma {:induction false} ChunksFlatten(rs: seq<Record>)
    ensures W.Flatten(Chunks(rs)) == EncodeRecords(rs)
  {
    if rs != [] {
      ChunksFlatten(rs[1..]);
      assert Chunks(rs)[1..] == Chunks(rs[1..]);
    }
  }

  lemma {:induction false} ChunkWhole(depth: nat, r: Record)
    requires ValidRecord(r, depth)
    ensures W.WholeRecord(depth, EncodeRecord(r)) && ReadVarint32(EncodeRecord(r)).value == TagOf(r)
  {
    var body := EncodePayload(r.number, r.payload);
    assert EncodeRecord(r) == EncodeTag(r.number, WireTypeOf(r.payload)) + body && body + [] == body;
    TagRoundTrip(r.number, WireTypeOf(r.payload), body);
    SkipFieldInvertsEncode(r, depth, []);
  }

  lemma {:induction false} ChunksWhole(depth: nat, rs: seq<Record>)
    requires ValidRecords(rs, depth)
    ensures W.WholeRecords(depth, Chunks(rs))
  {
    if rs != [] {
      hide W.WholeRecord, EncodeRecord, ValidRecord;
      assert rs[0] in rs && forall r | r in rs[1..] :: r in rs;
      ChunkWhole(depth, rs[0]);
      ChunksWhole(depth, rs[1..]);
    }
  }

  lemma PickSplit(s: Schema, rs: seq<Record>, i: nat)
    requires rs != []
    ensures Chunks(rs)[0] == EncodeRecord(rs[0]) && Chunks(rs)[1..] == Chunks(rs[1..])
    ensures var tail := Chunks(Pick(s, rs[1..], i));
            Chunks(Pick(s, rs, i)) == if SlotOfRecord(s, rs[0]) == i then [EncodeRecord(rs[0])] + tail else tail
  {
    hide EncodeRecord, SlotOfRecord;
    var tail := Pick(s, rs[1..], i);
    assert ([rs[0]] + tail)[1..] == tail && [] + tail == tail;
  }

  lemma {:induction false} OnlyIsPick(s: Schema, depth: nat, rs: seq<Record>, i: nat)
    requires ValidRecords(rs, depth) && W.WholeRecords(depth, Chunks(rs))
    ensures W.Only(s, depth, Chunks(rs), i) == Chunks(Pick(s, rs, i))
  {
    if rs != [] {
      hide EncodeRecord, Knows, W.WholeRecord, Chunks, Pick, W.Only, ValidRecord;
      assert rs[0] in rs && forall r | r in rs[1..] :: r in rs;
      ChunkWhole(depth, rs[0]);
      ChunksWhole(depth, rs[1..]);
      PickSplit(s, rs, i);
      W.OnlySplit(s, depth, Chunks(rs), i);
      OnlyIsPick(s, depth, rs[1..], i);
      assert W.SlotOf(s, Chunks(rs)[0]) == SlotOfRecord(s, rs[0]);
      var only := W.Only(s, depth, Chunks(rs), i);
      if SlotOfRecord(s, rs[0]) == i { assert only == [only[0]] + only[1..]; }
    } else {
      assert Chunks(rs) == [];
    }
  }

  // -------------------------------------------------------- the two hops

  lemma AllNext(fs: seq<Field>, vs: seq<Value>, k: nat)
    requires |fs| == |vs| && k < |fs|
    ensures AllRecords(fs[k..], vs[k..]) == SlotRecords(fs[k], vs[k]) + AllRecords(fs[k + 1..], vs[k + 1..])
  {
    hide SlotRecords;
    assert fs[k..][1..] == fs[k + 1..] && vs[k..][1..] == vs[k + 1..];
  }

  lemma {:induction false} RecordsAreSent(s: Schema, m: Msg, k: nat)
    requires |s.fields| == |m.slots| && k <= |s.fields|
    ensures RecordsFrom(s, m, k) == AllRecords(s.fields[k..], m.slots[k..]) + m.unknown
    decreases |s.fields| - k
  {
    if k < |s.fields| {
      hide SlotRecords;
      RecordsAreSent(s, m, k + 1);
      AllNext(s.fields, m.slots, k);
      Join(SlotRecords(s.fields[k], m.slots[k]), AllRecords(s.fields[k + 1..], m.slots[k + 1..]), m.unknown);
    } else {
      assert [] + m.unknown == m.unknown;
    }
  }

  lemma {:induction false} KeptRecords(fs: seq<Field>, vs: seq<Value>, keep: seq<bool>)
    requires |fs| == |vs| == |keep|
    ensures |Kept(fs, keep)| == |Kept(vs, keep)|
    ensures AllRecords(Kept(fs, keep), Kept(vs, keep)) == Part(fs, vs, keep, true)
  {
    if fs != [] {
      hide SlotRecords;
      KeptRecords(fs[1..], vs[1..], keep[1..]);
      var f, v := Kept(fs[1..], keep[1..]), Kept(vs[1..], keep[1..]);
      assert ([fs[0]] + f)[1..] == f && ([vs[0]] + v)[1..] == v && [] + f == f && [] + v == v;
    }
  }

  lemma {:induction false} PartIn(fs: seq<Field>, vs: seq<Value>, keep: seq<bool>, which: bool, r: Record)
    requires |fs| == |vs| == |keep| && r in Part(fs, vs, keep, which)
    ensures r in AllRecords(fs, vs)
    ensures exists j | 0 <= j < |fs| :: keep[j] == which && r in SlotRecords(fs[j], vs[j])
  {
    if keep[0] == which && r in SlotRecords(fs[0], vs[0]) {
    } else {
      hide SlotRecords;
      PartIn(fs[1..], vs[1..], keep[1..], which, r);
      var j :| 0 <= j < |fs| - 1 && keep[1..][j] == which && r in SlotRecords(fs[1..][j], vs[1..][j]);
      assert keep[j + 1] == which && r in SlotRecords(fs[j + 1], vs[j + 1]);
    }
  }

  lemma {:induction false} PartLengths(fs: seq<Field>, vs: seq<Value>, keep: seq<bool>)
    requires |fs| == |vs| == |keep|
    ensures |EncodeRecords(AllRecords(fs, vs))|
         == |EncodeRecords(Part(fs, vs, keep, true))| + |EncodeRecords(Part(fs, vs, keep, false))|
  {
    if fs != [] {
      hide SlotRecords, EncodeRecords, AllRecords, Part;
      PartLengths(fs[1..], vs[1..], keep[1..]);
      AllSplit(fs, vs);
      PartSplit(fs, vs, keep, true);
      PartSplit(fs, vs, keep, false);
    }
  }

  lemma AllSplit(fs: seq<Field>, vs: seq<Value>)
    requires |fs| == |vs| && fs != []
    ensures |EncodeRecords(AllRecords(fs, vs))|
         == |EncodeRecords(SlotRecords(fs[0], vs[0]))| + |EncodeRecords(AllRecords(fs[1..], vs[1..]))|
  {
    hide SlotRecords, EncodeRecords;
    EncodeRecordsConcat(SlotRecords(fs[0], vs[0]), AllRecords(fs[1..], vs[1..]));
  }

  lemma PartSplit(fs: seq<Field>, vs: seq<Value>, keep: seq<bool>, which: bool)
    requires |fs| == |vs| == |keep| && fs != []
    ensures |EncodeRecords(Part(fs, vs, keep, which))|
         == (if keep[0] == which then |EncodeRecords(SlotRecords(fs[0], vs[0]))| else 0)
            + |EncodeRecords(Part(fs[1..], vs[1..], keep[1..], which))|
  {
    hide SlotRecords, EncodeRecords;
    var tail := Part(fs[1..], vs[1..], keep[1..], which);
    EncodeRecordsConcat(SlotRecords(fs[0], vs[0]), tail);
    assert [] + tail == tail;
  }

  /** Both messages as records: valid ones, and equally many bytes. */
  lemma HopBytes(s: Schema, depth: nat, m: Msg, keep: seq<bool>)
    requires WellFormed(s) && Valid(s, depth, m) && |keep| == |s.fields| && |Serialize(s, m)| < TWO_31
    ensures Serialize(s, m) == EncodeRecords(Sent(s, m)) && ValidRecords(Sent(s, m), depth)
    ensures ValidRecords(Resent(s, m, keep), depth)
    ensures |EncodeRecords(Resent(s, m, keep))| == |Serialize(s, m)|
  {
    hide Serialize, EncodeRecords, ValidRecord, Part, AllRecords, RecordsFrom;
    WholeAsRecords(s, depth, m);
    RecordsAreSent(s, m, 0);
    assert s.fields[0..] == s.fields && m.slots[0..] == m.slots;
    forall r | r in Sent(s, m) ensures ValidRecord(r, depth) { TailRecordsValid(s, depth, m, 0, r); }
    var a, b := Part(s.fields, m.slots, keep, true), Part(s.fields, m.slots, keep, false);
    forall r | r in Resent(s, m, keep) ensures ValidRecord(r, depth) {
      if r in a { PartIn(s.fields, m.slots, keep, true, r); }
      if r in b { PartIn(s.fields, m.slots, keep, false, r); }
    }
    PartLengths(s.fields, m.slots, keep);
    EncodeRecordsConcat(AllRecords(s.fields, m.slots), m.unknown);
    EncodeRecordsConcat(a, b + m.unknown);
    EncodeRecordsConcat(b, m.unknown);
  }

  lemma {:induction false} NarrowedValid(s: Schema, depth: nat, m: Msg, keep: seq<bool>)
    requires WellFormed(s) && Valid(s, depth, m) && |keep| == |s.fields| && |Serialize(s, m)| < TWO_31
    ensures WellFormed(NarrowSchema(s, keep)) && Valid(NarrowSchema(s, keep), depth, Narrowed(s, m, keep))
  {
    hide Serialize, ValidValue, ValidRecord, Part, Kept, Knows, SlotRecords;
    var n, x := NarrowSchema(s, keep), Narrowed(s, m, keep);
    NarrowWellFormed(s, keep);
    HopBytes(s, depth, m, keep);
    KeptCounts(s.fields, m.slots, keep);
    forall i | 0 <= i < |x.slots| ensures ValidValue(n.fields[i].kind, depth, x.slots[i]) {
      var j := KeptAt(s.fields, m.slots, keep, i);
    }
    forall r | r in x.unknown ensures ValidRecord(r, depth) && !Knows(n, TagOf(r)) {
      assert r in Resent(s, m, keep);
      NarrowKnows(s, keep, r);
      if r in Part(s.fields, m.slots, keep, false) {
        PartIn(s.fields, m.slots, keep, false, r);
        var j :| 0 <= j < |s.fields| && keep[j] == false && r in SlotRecords(s.fields[j], m.slots[j]);
        SlotRecordKnown(s, depth, m, j, r);
      }
    }
  }

  lemma SlotCounts(s: Schema, depth: nat, m: Msg)
    requires Valid(s, depth, m)
    ensures |m.slots| == |s.fields|
  {
  }

  /** What the older node writes. */
  lemma NarrowedBytes(s: Schema, depth: nat, m: Msg, keep: seq<bool>)
    requires WellFormed(s) && Valid(s, depth, m) && |keep| == |s.fields| && |Serialize(s, m)| < TWO_31
    ensures WellFormed(NarrowSchema(s, keep)) && Valid(NarrowSchema(s, keep), depth, Narrowed(s, m, keep))
    ensures Serialize(NarrowSchema(s, keep), Narrowed(s, m, keep)) == EncodeRecords(Resent(s, m, keep))
  {
    hide Serialize, EncodeRecords, Valid, Part, AllRecords, RecordsFrom, Kept;
    SlotCounts(s, depth, m);
    var n, x := NarrowSchema(s, keep), Narrowed(s, m, keep);
    NarrowedValid(s, depth, m, keep);
    WholeAsRecords(n, depth, x);
    KeptRecords(s.fields, m.slots, keep);
    RecordsAreSent(n, x, 0);
    assert n.fields[0..] == n.fields && x.slots[0..] == x.slots;
  }

  /** Two record lists that agree slot by slot parse alike. */
  lemma SameParse(x: Schema, depth: nat, a: seq<Record>, b: seq<Record>)
    requires ValidRecords(a, depth) && ValidRecords(b, depth)
    requires forall i | 0 <= i <= |x.fields| :: Pick(x, a, i) == Pick(x, b, i)
    ensures Parse(x, depth, Empty(x), EncodeRecords(a)) == Parse(x, depth, Empty(x), EncodeRecords(b))
  {
    hide Parse, EncodeRecords, Pick, W.Only, W.WholeRecords, ValidRecords, Chunks, W.Flatten;
    ChunksFlatten(a);
    ChunksFlatten(b);
    ChunksWhole(depth, a);
    ChunksWhole(depth, b);
    forall i | 0 <= i <= |x.fields|
      ensures W.Only(x, depth, Chunks(a), i) == W.Only(x, depth, Chunks(b), i)
    {
      OnlyIsPick(x, depth, a, i);
      OnlyIsPick(x, depth, b, i);
    }
    L.EmptyConforms(x);
    W.WireOrderIrrelevant(x, depth, Empty(x), Chunks(a), Chunks(b));
  }

  /** A node that lacks any of the fields reads what it knows and keeps the rest; what it writes has the
      same length, and the newer node reads the original message back from it. */
  lemma RelayLosesNothing(s: Schema, depth: nat, m: Msg, keep: seq<bool>)
    requires WellFormed(s) && Valid(s, depth, m) && |keep| == |s.fields| && |Serialize(s, m)| < TWO_31
    ensures var older, hop := NarrowSchema(s, keep), Narrowed(s, m, keep);
            && Parse(older, depth, Empty(older), Serialize(s, m)) == Complete(hop)
            && |Serialize(older, hop)| == |Serialize(s, m)|
            && Parse(s, depth, Empty(s), Serialize(older, hop)) == Complete(m)
  {
    hide Parse, Serialize, Valid, WellFormed, EncodeRecords, Pick, Sent, Resent, ValidRecords;
    SlotCounts(s, depth, m);
    var older, hop := NarrowSchema(s, keep), Narrowed(s, m, keep);
    HopBytes(s, depth, m, keep);
    NarrowedBytes(s, depth, m, keep);
    SerializeParses(s, depth, m);
    SerializeParses(older, depth, hop);
    forall i: nat ensures i <= |s.fields| ==> Pick(s, Sent(s, m), i) == Pick(s, Resent(s, m, keep), i)
      ensures i <= |older.fields| ==> Pick(older, Sent(s, m), i) == Pick(older, Resent(s, m, keep), i)
    {
      PickSame(s, depth, m, keep, i);
    }
    SameParse(s, depth, Sent(s, m), Resent(s, m, keep));
    SameParse(older, depth, Sent(s, m), Resent(s, m, keep));
  }
}

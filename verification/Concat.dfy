/**
  Parsing and concatenation.  Feeding a ++ b to a parser should be the same as
  parsing a and then merging in what b holds.  The pushed limits make this depend
  on a: a nested or packed record whose declared length runs past the end of the
  input is cut off and accepted, and would swallow the first bytes of b.
 */
module Concat {
  import opened Wire
  import opened Unknown
  import opened Message
  import opened MergeLaws

  /** The input splits into whole wire records: every declared length is available. */
  predicate Whole(depth: nat, bs: bytes)
    decreases |bs|
  {
    bs == [] ||
    (&& ReadVarint32(bs).Got?
     && ReadVarint32(bs).value != 0
     && var Got(tag, rest) := ReadVarint32(bs);
        SkipField(tag, rest, depth).Got? && Whole(depth, SkipField(tag, rest, depth).rest))
  }

  function Append<T>(r: Read<T>, x: bytes): Read<T> {
    if r.Got? then Got(r.value, r.rest + x) else Bad
  }

  lemma ClampWhole(bs: bytes, n: nat, x: bytes)
    requires n <= |bs|
    ensures Clamp(bs + x, n) == Clamp(bs, n)
    ensures (bs + x)[n..] == bs[n..] + x
  {
    assert (bs + x)[..n] == bs[..n];
  }

  /** For a length-delimited field, SkipField succeeds exactly when the declared length is available. */
  lemma DelimitedAvailable(bs: bytes)
    requires ReadSize(bs).Got?
    ensures ReadVarint32(bs) == ReadSize(bs)
    ensures ReadDelimited(bs).Got? <==> ReadSize(bs).value <= |ReadSize(bs).rest|
    ensures ReadDelimited(bs).Got? ==> ReadDelimited(bs).rest == ReadSize(bs).rest[ReadSize(bs).value..]
  {
  }

  lemma NestedExtend(s: Schema, depth: nat, m: Msg, bs: bytes, x: bytes)
    requires ReadDelimited(bs).Got?
    ensures ReadNested(s, depth, m, bs + x) == Append(ReadNested(s, depth, m, bs), x)
    ensures ReadNested(s, depth, m, bs).Got? ==> ReadNested(s, depth, m, bs).rest == ReadDelimited(bs).rest
  {
    VarintExtend(bs, x);
    if ReadSize(bs).Got? {
      DelimitedAvailable(bs);
      ClampWhole(ReadSize(bs).rest, ReadSize(bs).value, x);
    }
  }

  lemma {:induction false} PackedExtend(w: Width, depth: nat, cur: Value, bs: bytes, x: bytes)
    requires ReadDelimited(bs).Got?
    ensures ReadValue(Repeated(w), depth, cur, 2, bs + x) == Append(ReadValue(Repeated(w), depth, cur, 2, bs), x)
    ensures ReadValue(Repeated(w), depth, cur, 2, bs).Got?
        ==> ReadValue(Repeated(w), depth, cur, 2, bs).rest == ReadDelimited(bs).rest
  {
    VarintExtend(bs, x);
    if ReadSize(bs).Got? {
      DelimitedAvailable(bs);
      ClampWhole(ReadSize(bs).rest, ReadSize(bs).value, x);
    }
  }

  /** A field that lies whole in the input is read the same, and to the same place, when more bytes follow. */
  lemma {:induction false} ReadValueExtend(k: Kind, depth: nat, cur: Value, tag: nat, bs: bytes, x: bytes)
    requires Accepts(k, tag % 8) && SkipField(tag, bs, depth).Got?
    ensures ReadValue(k, depth, cur, tag % 8, bs + x) == Append(ReadValue(k, depth, cur, tag % 8, bs), x)
    ensures ReadValue(k, depth, cur, tag % 8, bs).Got?
        ==> ReadValue(k, depth, cur, tag % 8, bs).rest == SkipField(tag, bs, depth).rest
  {
    match k
    case Scalar(_) => VarintExtend(bs, x);
    case Double => TakeExtend(bs, 8, x);
    case Bytes => DelimitedExtend(bs, x);
    case Message(s) => NestedExtend(s, depth, Existing(cur, s), bs, x);
    case Repeated(w) =>
      if tag % 8 == 0 { VarintExtend(bs, x); } else { PackedExtend(w, depth, cur, bs, x); }
    case RepeatedMessage(s) => NestedExtend(s, depth, Empty(s), bs, x);
  }

  lemma {:induction false} ReadFieldExtend(s: Schema, depth: nat, m: Msg, tag: nat, bs: bytes, x: bytes)
    requires SkipField(tag, bs, depth).Got?
    ensures ReadField(s, depth, m, tag, bs + x) == Append(ReadField(s, depth, m, tag, bs), x)
    ensures ReadField(s, depth, m, tag, bs).Got?
        ==> ReadField(s, depth, m, tag, bs).rest == SkipField(tag, bs, depth).rest
  {
    var i := Find(s.fields, tag / 8);
    if Knows(s, tag) && i < |m.slots| {
      ReadValueExtend(s.fields[i].kind, depth, m.slots[i], tag, bs, x);
    } else {
      SkipFieldExtend(tag, bs, depth, x);
    }
  }

  /** Over whole records the parser runs through a and then through b. */
  lemma {:induction false} ParseConcat(s: Schema, depth: nat, m: Msg, a: bytes, b: bytes)
    requires Whole(depth, a)
    ensures !Parse(s, depth, m, a).Stopped?
    ensures Parse(s, depth, m, a + b)
            == match Parse(s, depth, m, a) { case Complete(m') => Parse(s, depth, m', b) case _ => Failed }
    decreases |a|
  {
    if a == [] {
      assert a + b == b;
    } else {
      VarintExtend(a, b);
      var Got(tag, rest) := ReadVarint32(a);
      ReadFieldExtend(s, depth, m, tag, rest, b);
      if ReadField(s, depth, m, tag, rest).Got? {
        var Got(m', rest') := ReadField(s, depth, m, tag, rest);
        ParseConcat(s, depth, m', rest', b);
      }
    }
  }

  /** Parsing is a homomorphism from concatenation to merging, for whole records on the left. */
  lemma {:induction false} ParseHomomorphism(s: Schema, depth: nat, m: Msg, a: bytes, b: bytes)
    requires Conforms(s, m) && Whole(depth, a) && Parse(s, depth, m, a).Complete?
    ensures Parse(s, depth, m, a + b) == Lift(Parse(s, depth, m, a).msg, Parse(s, depth, Empty(s), b))
  {
    ParseConcat(s, depth, m, a, b);
    var ma := Parse(s, depth, m, a).msg;
    ParseConforms(s, depth, m, a);
    EmptyConforms(s);
    MergeRightIdentity(s, ma);
    ParseTranslates(s, depth, ma, Empty(s), b);
  }

  // ---------------------------------------------------- the converse direction

  /** Field 1 as a fixed32: no generated field has that wire type, so it is unknown to every schema. */
  const Probe: bytes := [13, 0, 0, 0, 0]

  lemma ProbeParses(s: Schema, depth: nat)
    ensures Parse(s, depth, Empty(s), Probe)
            == Complete(Empty(s).(unknown := [Record(1, Fixed32([0, 0, 0, 0]))]))
  {
    assert ReadVarint32(Probe) == Got(13, [0, 0, 0, 0]) by {
      assert Probe[1..] == [0, 0, 0, 0];
    }
    var m := Empty(s);
    var rest: bytes := [0, 0, 0, 0];
    assert !Knows(s, 13);
    assert rest[..4] == rest && rest[4..] == [];
    assert SkipField(13, rest, depth) == Got(Fixed32(rest), []);
    assert [] + [Record(1, Fixed32(rest))] == [Record(1, Fixed32(rest))];
    assert ReadField(s, depth, m, 13, rest) == Got(m.(unknown := [Record(1, Fixed32(rest))]), []);
  }

  /** After a record that overran its input, zero bytes stop the parser. */
  lemma ZerosStop(s: Schema, depth: nat, m: Msg, z: bytes)
    requires Zeros(z)
    ensures Parse(s, depth, m, z) == if z == [] then Complete(m) else Stopped(m)
  {
  }

  predicate Zeros(z: bytes) { forall i | 0 <= i < |z| :: z[i] == 0 }

  lemma ProbeLeft(rest: bytes, n: nat)
    requires n > |rest|
    ensures Clamp(rest, n) == rest && rest[|rest|..] == []
    ensures Zeros((rest + Probe)[|Clamp(rest + Probe, n)|..])
  {
    var run := Clamp(rest + Probe, n);
    var left := (rest + Probe)[|run|..];
    assert forall j | 0 <= j < |left| :: left[j] == Probe[j + |run| - |rest|];
  }

  lemma {:induction false} OverrunValue(k: Kind, depth: nat, cur: Value, bs: bytes)
    requires k.Message? || k.RepeatedMessage? || k.Repeated?
    requires ReadDelimited(bs).Bad?
    ensures ReadValue(k, depth, cur, 2, bs).Got? ==> ReadValue(k, depth, cur, 2, bs).rest == []
    ensures ReadValue(k, depth, cur, 2, bs).Got? && ReadValue(k, depth, cur, 2, bs + Probe).Got?
        ==> Zeros(ReadValue(k, depth, cur, 2, bs + Probe).rest)
  {
    if ReadSize(bs).Got? {
      DelimitedAvailable(bs);
      VarintExtend(bs, Probe);
      ProbeLeft(ReadSize(bs).rest, ReadSize(bs).value);
    }
  }

  lemma {:induction false} SkipFailsOnlyDelimited(k: Kind, depth: nat, cur: Value, tag: nat, bs: bytes)
    requires Accepts(k, tag % 8) && 1 <= tag / 8
    requires ReadValue(k, depth, cur, tag % 8, bs).Got? && SkipField(tag, bs, depth).Bad?
    ensures tag % 8 == 2 && ReadDelimited(bs).Bad? && (k.Message? || k.RepeatedMessage? || k.Repeated?)
  {
  }

  lemma {:induction false} OverrunSwallows(s: Schema, depth: nat, m: Msg, tag: nat, bs: bytes)
    requires WellFormed(s)
    requires ReadField(s, depth, m, tag, bs).Got? && SkipField(tag, bs, depth).Bad?
    ensures ReadField(s, depth, m, tag, bs).rest == []
    ensures ReadField(s, depth, m, tag, bs).value.unknown == m.unknown
    ensures var r := ReadField(s, depth, m, tag, bs + Probe);
            r.Got? ==> r.value.unknown == m.unknown && Zeros(r.rest)
  {
    var i := Find(s.fields, tag / 8);
    SkipFailsOnlyDelimited(s.fields[i].kind, depth, m.slots[i], tag, bs);
    OverrunValue(s.fields[i].kind, depth, m.slots[i], bs);
  }

  lemma {:induction false} OverrunHides(s: Schema, depth: nat, m: Msg, a: bytes)
    requires WellFormed(s) && !Whole(depth, a) && Parse(s, depth, m, a).Complete?
    ensures var r := Parse(s, depth, m, a + Probe);
            r.Complete? ==> r.msg.unknown == Parse(s, depth, m, a).msg.unknown
    decreases |a|
  {
    VarintExtend(a, Probe);
    var Got(tag, rest) := ReadVarint32(a);
    var Got(m', rest') := ReadField(s, depth, m, tag, rest);
    if SkipField(tag, rest, depth).Got? {
      ReadFieldExtend(s, depth, m, tag, rest, Probe);
      OverrunHides(s, depth, m', rest');
    } else {
      OverrunSwallows(s, depth, m, tag, rest);
      var r := ReadField(s, depth, m, tag, rest + Probe);
      if r.Got? {
        ZerosStop(s, depth, r.value, r.rest);
      }
    }
  }

  /** Exactly when concatenation is merging: a must consist of whole records. */
  lemma {:induction false} HomomorphismIff(s: Schema, depth: nat, m: Msg, a: bytes)
    requires WellFormed(s) && Conforms(s, m) && Parse(s, depth, m, a).Complete?
    ensures Whole(depth, a)
        <==> (forall b | Parse(s, depth, Empty(s), b).Complete? ::
                Parse(s, depth, m, a + b)
                == Complete(Merge(Parse(s, depth, m, a).msg, Parse(s, depth, Empty(s), b).msg)))
  {
    if Whole(depth, a) {
      forall b | Parse(s, depth, Empty(s), b).Complete?
        ensures Parse(s, depth, m, a + b)
             == Complete(Merge(Parse(s, depth, m, a).msg, Parse(s, depth, Empty(s), b).msg))
      {
        ParseHomomorphism(s, depth, m, a, b);
      }
    } else {
      ProbeParses(s, depth);
      OverrunHides(s, depth, m, a);
      var ma := Parse(s, depth, m, a).msg;
      var merged := Merge(ma, Parse(s, depth, Empty(s), Probe).msg);
      assert |merged.unknown| == |ma.unknown| + 1;
      assert Parse(s, depth, m, a + Probe) != Complete(merged);
    }
  }
}

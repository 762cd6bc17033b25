/** MergeFrom is a monoid on the messages of a schema, and parsing translates along it. */
module MergeLaws {
  import opened Wire
  import opened Unknown
  import opened Message

  lemma EmptyConforms(s: Schema)
    ensures Conforms(s, Empty(s))
  {
  }

  lemma {:induction false} MergeConforms(s: Schema, a: Msg, b: Msg)
    requires Conforms(s, a) && Conforms(s, b)
    ensures Conforms(s, Merge(a, b))
    decreases b, 1
  {
    forall i | 0 <= i < |b.slots|
      ensures ConformsValue(s.fields[i].kind, MergeValue(a.slots[i], b.slots[i]))
    {
      MergeValueConforms(s.fields[i].kind, a.slots[i], b.slots[i]);
    }
  }

  lemma {:induction false} MergeValueConforms(k: Kind, a: Value, b: Value)
    requires ConformsValue(k, a) && ConformsValue(k, b)
    ensures ConformsValue(k, MergeValue(a, b))
    decreases b, 0
  {
    if a.Sub? && b.Sub? {
      MergeConforms(k.schema, a.msg, b.msg);
    }
  }

  /** The default message is a left identity of MergeFrom. */
  lemma MergeLeftIdentity(s: Schema, m: Msg)
    requires Conforms(s, m)
    ensures Merge(Empty(s), m) == m
  {
    forall i | 0 <= i < |m.slots|
      ensures MergeValue(Empty(s).slots[i], m.slots[i]) == m.slots[i]
    {
      assert ConformsValue(s.fields[i].kind, m.slots[i]);
      MergeDefaultLeft(s.fields[i].kind, m.slots[i]);
    }
    assert Merge(Empty(s), m).slots == m.slots;
    assert [] + m.unknown == m.unknown;
  }

  lemma MergeDefaultLeft(k: Kind, v: Value)
    requires ConformsValue(k, v)
    ensures MergeValue(Default(k), v) == v
  {
    if v.Nums? { assert [] + v.ns == v.ns; }
    if v.Subs? { assert [] + v.msgs == v.msgs; }
  }

  lemma MergeDefaultRight(k: Kind, v: Value)
    requires ConformsValue(k, v)
    ensures MergeValue(v, Default(k)) == v
  {
    if v.Nums? { assert v.ns + [] == v.ns; }
    if v.Subs? { assert v.msgs + [] == v.msgs; }
  }

  /** ... and a right identity. */
  lemma MergeRightIdentity(s: Schema, m: Msg)
    requires Conforms(s, m)
    ensures Merge(m, Empty(s)) == m
  {
    forall i | 0 <= i < |m.slots|
      ensures MergeValue(m.slots[i], Empty(s).slots[i]) == m.slots[i]
    {
      assert ConformsValue(s.fields[i].kind, m.slots[i]);
      MergeDefaultRight(s.fields[i].kind, m.slots[i]);
    }
    assert Merge(m, Empty(s)).slots == m.slots;
    assert m.unknown + [] == m.unknown;
  }

  /** MergeFrom is associative, through nested messages of any depth. */
  lemma {:induction false} MergeAssociative(s: Schema, a: Msg, b: Msg, c: Msg)
    requires Conforms(s, a) && Conforms(s, b) && Conforms(s, c)
    ensures Merge(Merge(a, b), c) == Merge(a, Merge(b, c))
    decreases c, 1
  {
    forall i | 0 <= i < |c.slots|
      ensures MergeValue(MergeValue(a.slots[i], b.slots[i]), c.slots[i])
           == MergeValue(a.slots[i], MergeValue(b.slots[i], c.slots[i]))
    {
      MergeValueAssociative(s.fields[i].kind, a.slots[i], b.slots[i], c.slots[i]);
    }
    assert Merge(Merge(a, b), c).slots == Merge(a, Merge(b, c)).slots;
    assert a.unknown + b.unknown + c.unknown == a.unknown + (b.unknown + c.unknown);
  }

  lemma {:induction false} MergeValueAssociative(k: Kind, a: Value, b: Value, c: Value)
    requires ConformsValue(k, a) && ConformsValue(k, b) && ConformsValue(k, c)
    ensures MergeValue(MergeValue(a, b), c) == MergeValue(a, MergeValue(b, c))
    decreases c, 0
  {
    match k
    case Message(s) =>
      if a.Sub? && b.Sub? && c.Sub? { MergeAssociative(s, a.msg, b.msg, c.msg); }
    case Repeated(_) => assert a.ns + b.ns + c.ns == a.ns + (b.ns + c.ns);
    case RepeatedMessage(_) => assert a.msgs + b.msgs + c.msgs == a.msgs + (b.msgs + c.msgs);
    case _ =>
  }

  /** Which fields are present after a merge: the union of both sides, never more. */
  lemma MergePresence(s: Schema, a: Msg, b: Msg, i: nat)
    requires Conforms(s, a) && Conforms(s, b) && i < |s.fields|
    ensures Merge(a, b).slots[i] == Default(s.fields[i].kind)
        <==> a.slots[i] == Default(s.fields[i].kind) && b.slots[i] == Default(s.fields[i].kind)
  {
    assert ConformsValue(s.fields[i].kind, a.slots[i]);
    assert ConformsValue(s.fields[i].kind, b.slots[i]);
    MergeDefaultRight(s.fields[i].kind, a.slots[i]);
  }

  // --------------------------------------------------- parsing into a message

  function Lift(a: Msg, o: Outcome): Outcome {
    match o
    case Complete(m) => Complete(Merge(a, m))
    case Stopped(m) => Stopped(Merge(a, m))
    case Failed => Failed
  }

  lemma {:induction false} ParseConforms(s: Schema, depth: nat, m: Msg, bs: bytes)
    requires Conforms(s, m)
    ensures !Parse(s, depth, m, bs).Failed? ==> Conforms(s, Parse(s, depth, m, bs).msg)
    decreases |bs|, 3
  {
    if bs != [] && ReadVarint32(bs).Got? && ReadVarint32(bs).value != 0 {
      var Got(tag, rest) := ReadVarint32(bs);
      ReadFieldConforms(s, depth, m, tag, rest);
      if ReadField(s, depth, m, tag, rest).Got? {
        var Got(m', rest') := ReadField(s, depth, m, tag, rest);
        ParseConforms(s, depth, m', rest');
      }
    }
  }

  lemma {:induction false} ReadFieldConforms(s: Schema, depth: nat, m: Msg, tag: nat, bs: bytes)
    requires Conforms(s, m)
    ensures ReadField(s, depth, m, tag, bs).Got? ==> Conforms(s, ReadField(s, depth, m, tag, bs).value)
    decreases |bs|, 2
  {
    if Knows(s, tag) {
      var i := Find(s.fields, tag / 8);
      ReadValueConforms(s.fields[i].kind, depth, m.slots[i], tag % 8, bs);
    }
  }

  lemma {:induction false} ReadValueConforms(k: Kind, depth: nat, cur: Value, wireType: nat, bs: bytes)
    requires ConformsValue(k, cur)
    ensures ReadValue(k, depth, cur, wireType, bs).Got?
        ==> ConformsValue(k, ReadValue(k, depth, cur, wireType, bs).value)
    decreases |bs|, 1
  {
    match k
    case Message(s) =>
      EmptyConforms(s);
      ReadNestedConforms(s, depth, Existing(cur, s), bs);
    case RepeatedMessage(s) =>
      EmptyConforms(s);
      ReadNestedConforms(s, depth, Empty(s), bs);
    case _ =>
  }

  lemma {:induction false} ReadNestedConforms(s: Schema, depth: nat, m: Msg, bs: bytes)
    requires Conforms(s, m)
    ensures ReadNested(s, depth, m, bs).Got? ==> Conforms(s, ReadNested(s, depth, m, bs).value)
    decreases |bs|, 0
  {
    if ReadSize(bs).Got? && depth > 0 {
      var Got(n, rest) := ReadSize(bs);
      ParseConforms(s, depth - 1, m, Clamp(rest, n));
    }
  }

  /** Parsing into a merged message is merging with the parse: the message already
      present when a record arrives never matters beyond MergeFrom. */
  lemma {:induction false} ParseTranslates(s: Schema, depth: nat, a: Msg, m: Msg, bs: bytes)
    requires Conforms(s, a) && Conforms(s, m)
    ensures Parse(s, depth, Merge(a, m), bs) == Lift(a, Parse(s, depth, m, bs))
    decreases |bs|, 3
  {
    if bs != [] && ReadVarint32(bs).Got? && ReadVarint32(bs).value != 0 {
      var Got(tag, rest) := ReadVarint32(bs);
      ReadFieldTranslates(s, depth, a, m, tag, rest);
      if ReadField(s, depth, m, tag, rest).Got? {
        var Got(m', rest') := ReadField(s, depth, m, tag, rest);
        ReadFieldConforms(s, depth, m, tag, rest);
        ParseTranslates(s, depth, a, m', rest');
      }
    }
  }

  lemma {:induction false} ReadFieldTranslates(s: Schema, depth: nat, a: Msg, m: Msg, tag: nat, bs: bytes)
    requires Conforms(s, a) && Conforms(s, m)
    ensures ReadField(s, depth, Merge(a, m), tag, bs) == LiftRead(a, ReadField(s, depth, m, tag, bs))
    decreases |bs|, 2
  {
    var am := Merge(a, m);
    if Knows(s, tag) {
      var i := Find(s.fields, tag / 8);
      ReadValueTranslates(s.fields[i].kind, depth, a.slots[i], m.slots[i], tag % 8, bs);
      var r := ReadValue(s.fields[i].kind, depth, m.slots[i], tag % 8, bs);
      if r.Got? {
        assert am.slots[i := MergeValue(a.slots[i], r.value)]
            == Merge(a, Put(m, i, r.value)).slots;
      }
    } else {
      var r := SkipField(tag, bs, depth);
      if r.Got? {
        assert (a.unknown + m.unknown) + [Record(tag / 8, r.value)]
            == a.unknown + (m.unknown + [Record(tag / 8, r.value)]);
      }
    }
  }

  function LiftRead(a: Msg, r: Read<Msg>): Read<Msg> {
    if r.Got? then Got(Merge(a, r.value), r.rest) else Bad
  }

  function LiftValue(a: Value, r: Read<Value>): Read<Value> {
    if r.Got? then Got(MergeValue(a, r.value), r.rest) else Bad
  }

  lemma {:induction false} ReadValueTranslates(k: Kind, depth: nat, a: Value, v: Value, wireType: nat, bs: bytes)
    requires ConformsValue(k, a) && ConformsValue(k, v)
    ensures ReadValue(k, depth, MergeValue(a, v), wireType, bs)
            == LiftValue(a, ReadValue(k, depth, v, wireType, bs))
    decreases |bs|, 1
  {
    match k
    case Repeated(w) => ReadRepeatedTranslates(w, depth, a.ns, v.ns, wireType, bs);
    case RepeatedMessage(s) =>
      var r := ReadNested(s, depth, Empty(s), bs);
      if r.Got? {
        assert a.msgs + v.msgs + [r.value] == a.msgs + (v.msgs + [r.value]);
      }
    case Message(s) =>
      EmptyConforms(s);
      if a.Sub? {
        if v.Absent? { MergeRightIdentity(s, a.msg); }
        ReadNestedTranslates(s, depth, a.msg, Existing(v, s), bs);
      }
    case _ =>
  }

  lemma {:induction false} ReadRepeatedTranslates(w: Width, depth: nat, a: seq<int>, v: seq<int>, wireType: nat,
                                                  bs: bytes)
    ensures ReadValue(Repeated(w), depth, Nums(a + v), wireType, bs)
            == LiftValue(Nums(a), ReadValue(Repeated(w), depth, Nums(v), wireType, bs))
  {
    if wireType == 0 {
      if ReadVarint64(bs).Got? {
        var n := FromWire(w, ReadVarint64(bs).value);
        assert a + v + [n] == a + (v + [n]);
      }
    } else if ReadSize(bs).Got? {
      var run := ReadPacked(w, Clamp(ReadSize(bs).rest, ReadSize(bs).value));
      if run.Run? {
        assert a + v + run.ns == a + (v + run.ns);
      }
    }
  }

  lemma {:induction false} ReadNestedTranslates(s: Schema, depth: nat, a: Msg, m: Msg, bs: bytes)
    requires Conforms(s, a) && Conforms(s, m)
    ensures ReadNested(s, depth, Merge(a, m), bs) == LiftRead(a, ReadNested(s, depth, m, bs))
    decreases |bs|, 0
  {
    if ReadSize(bs).Got? && depth > 0 {
      var Got(n, rest) := ReadSize(bs);
      ParseTranslates(s, depth - 1, a, m, Clamp(rest, n));
    }
  }
}

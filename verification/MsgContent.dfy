/** msg_content: nine pointers to the kinds of content a chat message can have. */
module MsgContentClass {
  import opened Wire
  import opened Unknown
  import opened Message
  import opened HasBits
  import opened Failing
  import opened Members
  import opened MergeLaws
  import opened Nested
  import opened Sizing
  import opened Streams
  import opened Writing
  import S = Schemas

  // The has-bit of each member, which is also the index of its field.
  const TEXT: nat := 0
  const PICTURE: nat := 1
  const VOICE: nat := 2
  const CARD: nat := 3
  const LOCATION: nat := 4
  const REDPKT: nat := 5
  const SHARE: nat := 6
  const JSON: nat := 7
  const WARING: nat := 8
  const BITS: nat := 9

  const BIT_OF: seq<nat> := [TEXT, PICTURE, VOICE, CARD, LOCATION, REDPKT, SHARE, JSON, WARING]
  const TAG_OF: seq<nat> := [10, 18, 26, 34, 42, 50, 58, 66, 74]

  lemma FieldMatches(i: nat)
    requires i < BITS
    ensures BIT_OF[i] == i && S.MsgContent.fields[i].number == i + 1 && S.MsgContent.fields[i].kind.Message?
    ensures TAG_OF[i] == MakeTag(i + 1, 2)
  {
  }

  /** The has-bits, tags and types of the class agree with its schema; bits and fields are in one order. */
  function Shape(): (l: Layout)
    ensures Sound(l) && l.schema == S.MsgContent
    ensures l.strings == 0 && l.nested == |l.bitOf| == |l.fieldOf| == |l.tagOf| == BITS
    ensures forall k | 0 <= k < BITS :: l.fieldOf[k] == l.bitOf[k] == k
  {
    var l := Layout(S.MsgContent, 0, BITS, BIT_OF, BIT_OF, TAG_OF);
    ShapeSound(l);
    l
  }

  lemma ShapeSound(l: Layout)
    requires l == Layout(S.MsgContent, 0, BITS, BIT_OF, BIT_OF, TAG_OF)
    ensures Sound(l) && forall k | 0 <= k < BITS :: l.fieldOf[k] == l.bitOf[k] == k
  {
    forall i | 0 <= i < BITS
      ensures l.bitOf[i] == i && l.schema.fields[i].number == i + 1
      ensures l.tagOf[i] == MakeTag(i + 1, WireType(l.schema.fields[i].kind))
      ensures KindAt(l, l.bitOf[i], l.schema.fields[i].kind)
    {
      FieldMatches(i);
    }
  }

  /** The slot that each accessor works on. */
  lemma AccessorSlots()
    ensures var f := Shape().fieldOf;
            && f[TEXT] == 0 && f[PICTURE] == 1 && f[VOICE] == 2 && f[CARD] == 3 && f[LOCATION] == 4
            && f[REDPKT] == 5 && f[SHARE] == 6 && f[JSON] == 7 && f[WARING] == 8
  {
    hide Sound;
  }

  /** A pointer and the content recorded for it. */
  ghost predicate Points(p: SubMessage?, c: Pointee, s: Schema)
    reads if p == null then {} else {p}`val
  {
    if p == null then c == Null else p.schema == s && c == To(p.val) && Conforms(s, p.val)
  }

  /** A pointer after its object, if any, was cleared. */
  function Emptied(p: Pointee, s: Schema): Pointee { if p.Null? then Null else To(Empty(s)) }

  /** The parts below `k` are cleared, the others as they were. */
  ghost predicate EmptiedUpto(cs: seq<Pointee>, start: seq<Pointee>, k: nat) {
    && |cs| == |start| == BITS
    && forall j | 0 <= j < BITS :: cs[j] == if j < k then Emptied(start[j], SubSchema(Shape(), j)) else start[j]
  }

  lemma EmptiedSize(cs: seq<Pointee>, start: seq<Pointee>, k: nat)
    requires EmptiedUpto(cs, start, k)
    ensures |cs| == |start| == BITS
  {
  }

  lemma SkipEmptied(cs: seq<Pointee>, start: seq<Pointee>, has: word, lo: nat, hi: nat)
    requires lo <= hi <= BITS && EmptiedUpto(cs, start, lo) && forall k | lo <= k < hi :: k !in has
    requires |start| == BITS
    requires forall k | 0 <= k < BITS && k !in has :: start[k] == Emptied(start[k], SubSchema(Shape(), k))
    ensures EmptiedUpto(cs, start, hi)
  {
    hide Shape, Sound;
  }

  lemma ClearStart(st: Store)
    requires Invariant(Shape(), st)
    ensures |st.subs| == BITS && EmptiedUpto(st.subs, st.subs, 0)
    ensures forall k | 0 <= k < BITS ::
              if k in st.has then st.subs[k].To? else st.subs[k] == Emptied(st.subs[k], SubSchema(Shape(), k))
  {
    hide Shape, Sound, Conforms;
    forall k | 0 <= k < BITS
      ensures if k in st.has then st.subs[k].To? else st.subs[k] == Emptied(st.subs[k], SubSchema(Shape(), k))
    {
      PointerAt(Shape(), st, k);
    }
  }

  lemma ClearEnd(st: Store, start: seq<Pointee>)
    requires EmptiedUpto(st.subs, start, BITS) && st.has == {} && st.unknown == [] && st.strs == [] && st.nums == []
    ensures IsFresh(Shape(), st)
  {
    hide Shape, Sound;
  }

  /** Merging the part behind bit `k` extends the merged range. */
  lemma SubsStep(cs: seq<Pointee>, c0: seq<Pointee>, fh: word, fc: seq<Pointee>, k: nat)
    requires SubsUpto(Shape(), cs, c0, fh, fc, k) && k < BITS && (k in fh ==> fc[k].To?)
    ensures var s := SubSchema(Shape(), k);
            var r := if k in fh then cs[k := MergedSub(s, cs[k], true, fc[k])] else cs;
            SubsUpto(Shape(), r, c0, fh, fc, k + 1)
  {
    hide Shape, Sound, Merge;
    var r := if k in fh then cs[k := MergedSub(SubSchema(Shape(), k), cs[k], true, fc[k])] else cs;
    forall j | 0 <= j < BITS
      ensures r[j] == if j < k + 1 then MergedSub(SubSchema(Shape(), j), c0[j], j in fh, fc[j]) else c0[j]
    {
      hide MergedSub;
      if j == k && k !in fh { NotMerged(SubSchema(Shape(), k), c0[k], fc[k]); }
    }
  }

  lemma NotMerged(s: Schema, p: Pointee, q: Pointee)
    ensures MergedSub(s, p, false, q) == p
  {
  }

  /** The set parts below `k` are initialized. */
  ghost predicate InitializedUpto(st: Store, k: nat)
    requires Shaped(Shape(), st) && k <= BITS
  {
    forall j | 0 <= j < k && j in st.has && st.subs[j].To? :: Initialized(SubSchema(Shape(), j), st.subs[j].msg)
  }

  lemma PartsInitialized(st: Store)
    requires Invariant(Shape(), st)
    ensures InitializedUpto(st, 0)
    ensures InitializedUpto(st, BITS) <==> Initialized(S.MsgContent, ValueOf(Shape(), st))
  {
    var m := ValueOf(Shape(), st);
    forall j | 0 <= j < BITS
      ensures InitializedField(S.MsgContent.fields[j], m.slots[j])
          <==> (j in st.has && st.subs[j].To? ==> Initialized(SubSchema(Shape(), j), st.subs[j].msg))
    {
      hide Initialized, Conforms;
      PartField(st, j);
    }
  }

  lemma PartField(st: Store, j: nat)
    requires Invariant(Shape(), st) && j < BITS
    ensures var f := S.MsgContent.fields[j];
            && f.kind == Message(SubSchema(Shape(), j)) && !f.required
            && (j in st.has ==> st.subs[j].To?)
            && ValueOf(Shape(), st).slots[j] == if j in st.has then Sub(st.subs[j].msg) else Absent
  {
    hide Shape, Sound, Invariant, Conforms;
    NoneRequired(j);
    MemberSlot(Shape(), st, j);
    Bounds(Shape(), st);
    SlotCount(Shape(), st);
  }

  lemma NoneRequired(j: nat)
    requires j < BITS
    ensures !S.MsgContent.fields[j].required
  {
  }

  /** The message that the members stand for. */
  ghost function MessageOf(st: Store): (m: Msg) {
    if Shaped(Shape(), st) then ValueOf(Shape(), st) else Empty(S.MsgContent)
  }

  class MsgContent {
    var hasBits: word
    var parts: seq<SubMessage?>
    var unknown: seq<Record>
    var cachedSize: int
    ghost var contents: seq<Pointee>

    ghost function Parts(): (ps: set<SubMessage>)
      reads this`parts
    {
      set p: SubMessage | p in parts
    }

    ghost function Snap(): (st: Store)
      reads this`hasBits, this`contents, this`unknown
    {
      Store(hasBits, [], contents, [], unknown)
    }

    /** The recorded contents are those of the parts, and no part is shared. */
    ghost predicate Linked()
      reads this`parts, this`contents, Parts()`val
    {
      && |parts| == |contents| == BITS
      && (forall j | 0 <= j < BITS :: Points(parts[j], contents[j], SubSchema(Shape(), j)))
      && (forall i, j | 0 <= i < j < BITS :: parts[i] == null || parts[i] != parts[j])
    }

    /** The same, but for the content of part `k`. */
    ghost predicate LinkedBut(k: nat)
      reads this`parts, this`contents, Parts()`val
    {
      && |parts| == |contents| == BITS
      && (forall j | 0 <= j < BITS && j != k :: Points(parts[j], contents[j], SubSchema(Shape(), j)))
      && (forall i, j | 0 <= i < j < BITS :: parts[i] == null || parts[i] != parts[j])
    }

    ghost predicate Valid()
      reads this`hasBits, this`parts, this`contents, this`unknown, Parts()`val
    {
      Invariant(Shape(), Snap()) && Linked()
    }

    /** The message this object stands for. */
    ghost function Value(): (m: Msg)
      reads this`hasBits, this`contents, this`unknown
    {
      MessageOf(Snap())
    }

    lemma ValueOk()
      requires Valid()
      ensures Conforms(S.MsgContent, Value())
    {
      hide Shape, Sound, Invariant, ValueOf, Conforms;
      Bounds(Shape(), Snap());
      ValueConforms(Shape(), Snap());
    }

    constructor ()
      ensures Valid() && IsFresh(Shape(), Snap()) && Value() == Empty(S.MsgContent) && Parts() == {}
    {
      hasBits, unknown, cachedSize := {}, [], 0;
      parts, contents := seq(BITS, _ => null), seq(BITS, _ => Null);
      new;
      FreshInvariant(Shape(), Snap());
    }

    // ---------------------------------------------------------- accessors

    /** Makes sure part `k` exists; its bit is the caller's business. */
    method Ensure(k: nat) returns (p: SubMessage)
      requires Linked() && k < BITS
      modifies this`parts, this`contents
      ensures Linked()
      ensures if old(parts[k]) == null then fresh(p) else p == old(parts[k])
      ensures parts == old(parts)[k := p] && p.schema == SubSchema(Shape(), k) && p.Valid()
      ensures p.val == Content(old(contents[k]), p.schema) && contents == old(contents)[k := To(p.val)]
    {
      hide Shape, Sound, Conforms;
      if parts[k] == null {
        p := new SubMessage(SubSchema(Shape(), k));
        parts := parts[k := p];
      } else {
        p := parts[k];
        assert parts == parts[k := p];
      }
      contents := contents[k := To(p.val)];
    }

    /** mutable_: a clear bit over a kept object exposes an empty message, as a new object would. */
    method MutablePart(k: nat) returns (p: SubMessage)
      requires Valid() && k < BITS
      modifies this`hasBits, this`parts, this`contents
      ensures Valid() && p == parts[k] && p.Valid() && hasBits == old(hasBits) + {k}
      ensures if old(parts[k]) == null then fresh(p) else p == old(parts[k])
      ensures parts == old(parts)[k := p] && p.schema == SubSchema(Shape(), k)
      ensures contents == old(contents)[k := To(p.val)] && p.val == Content(old(contents[k]), p.schema)
      ensures p.val == Existing(old(Value()).slots[k], p.schema)
      ensures Value() == Put(old(Value()), k, Sub(p.val))
    {
      hide Shape, Sound, Invariant, ValueOf, Conforms, Existing, Linked;
      Held(k);
      Counts();
      Bounds(Shape(), Snap());
      hasBits := hasBits + {k};
      p := Ensure(k);
      StoreNested(Shape(), old(Snap()), k, p.val);
      Bounds(Shape(), Snap());
    }

    lemma Counts()
      requires Linked()
      ensures |parts| == |contents| == BITS
    {
    }

    /** What mutable_ will expose for part `k`. */
    lemma Held(k: nat)
      requires Valid() && k < BITS
      ensures |Value().slots| == BITS
      ensures var s := SubSchema(Shape(), k);
              Content(contents[k], s) == Existing(Value().slots[k], s) && Conforms(s, Content(contents[k], s))
    {
      hide Shape, Sound, Invariant, Conforms;
      MemberSlot(Shape(), Snap(), k);
      Bounds(Shape(), Snap());
      PointerAt(Shape(), Snap(), k);
      EmptyConforms(SubSchema(Shape(), k));
    }

    /** Records the content of part `k` after it was changed through its own object. */
    ghost method Relink(k: nat)
      requires LinkedBut(k) && k < BITS && parts[k] != null && parts[k].Valid()
      requires parts[k].schema == SubSchema(Shape(), k)
      modifies this`contents
      ensures Linked() && contents == old(contents)[k := To(parts[k].val)]
    {
      hide Shape, Sound, Conforms;
      contents := contents[k := To(parts[k].val)];
    }

    /** What dropping bit `k` does to the message, the part kept empty or given away. */
    lemma Dropped(before: Store, k: nat)
      requires Invariant(Shape(), before) && k < BITS && before.strs == [] && before.nums == [] && |before.subs| == BITS
      requires Linked() && hasBits == before.has - {k} && unknown == before.unknown
      requires contents == before.subs[k := contents[k]]
      requires contents[k] == Null || contents[k] == To(Empty(SubSchema(Shape(), k)))
      ensures Valid() && |MessageOf(before).slots| == BITS && Value() == Put(MessageOf(before), k, Absent)
    {
      hide Shape, Sound, Invariant, ValueOf, Linked;
      DropNested(Shape(), before, k, contents[k]);
      Bounds(Shape(), Snap());
    }

    /** clear_ keeps the part but empties it. */
    method ClearPart(k: nat)
      requires Valid() && k < BITS
      modifies this`hasBits, this`contents, Parts()`val
      ensures Valid() && Value() == Put(old(Value()), k, Absent)
    {
      hide Shape, Sound, Invariant, ValueOf, Conforms;
      Bounds(Shape(), Snap());
      if parts[k] != null {
        parts[k].Clear();
        Relink(k);
      }
      hasBits := hasBits - {k};
      Dropped(old(Snap()), k);
    }

    /** release_: hands the part over, cleared or not, and forgets it. */
    method ReleasePart(k: nat) returns (p: SubMessage?)
      requires Valid() && k < BITS
      modifies this`hasBits, this`parts, this`contents
      ensures Valid() && p == old(parts[k]) && parts == old(parts)[k := null] && Parts() <= old(Parts())
      ensures Value() == Put(old(Value()), k, Absent)
      ensures k in old(hasBits) ==> p != null && old(Value()).slots[k] == Sub(p.val)
    {
      hide Shape, Sound, Invariant, ValueOf, Conforms;
      Bounds(Shape(), Snap());
      MemberSlot(Shape(), Snap(), k);
      hasBits := hasBits - {k};
      p := parts[k];
      parts, contents := parts[k := null], contents[k := Null];
      Dropped(old(Snap()), k);
    }

    /** set_allocated_: takes the object over; null clears the field. */
    method SetAllocatedPart(k: nat, p: SubMessage?)
      requires Valid() && k < BITS
      requires p != null ==> p.Valid() && p.schema == SubSchema(Shape(), k) && p !in Parts()
      modifies this`hasBits, this`parts, this`contents
      ensures Valid() && parts == old(parts)[k := p] && forall q | q in Parts() :: q == p || q in old(Parts())
      ensures Value() == Put(old(Value()), k, if p == null then Absent else Sub(p.val))
    {
      hide Shape, MsgContent.Valid, MsgContent.Value;
      if p != null {
        Adopt(k, p);
      } else {
        var _ := ReleasePart(k);
      }
    }

    method Adopt(k: nat, p: SubMessage)
      requires Valid() && k < BITS && p.Valid() && p.schema == SubSchema(Shape(), k) && p !in Parts()
      modifies this`hasBits, this`parts, this`contents
      ensures Valid() && parts == old(parts)[k := p] && forall q | q in Parts() :: q == p || q in old(Parts())
      ensures Value() == Put(old(Value()), k, Sub(p.val))
    {
      hide Shape, Sound, Invariant, ValueOf, Linked, Conforms;
      Bounds(Shape(), Snap());
      Counts();
      Attach(k, p);
      GrewBy(old(parts), k, p);
      hasBits := hasBits + {k};
      Stored(old(Snap()), k);
    }

    /** Points part `k` at the object; its bit is the caller's business. */
    method Attach(k: nat, p: SubMessage)
      requires Linked() && k < BITS && p.Valid() && p.schema == SubSchema(Shape(), k) && p !in Parts()
      modifies this`parts, this`contents
      ensures Linked() && parts == old(parts)[k := p] && contents == old(contents)[k := To(p.val)]
      ensures |contents| == BITS && Conforms(SubSchema(Shape(), k), contents[k].msg)
    {
      hide Shape, Sound, Conforms;
      assert forall j | 0 <= j < BITS :: parts[j] != p;
      parts := parts[k := p];
      contents := contents[k := To(p.val)];
    }

    lemma PartAt(k: nat)
      requires Linked() && k < BITS && contents[k].To?
      ensures |parts| == BITS && parts[k] != null && parts[k] in Parts() && parts[k].Valid()
      ensures parts[k].schema == SubSchema(Shape(), k) && contents[k] == To(parts[k].val)
    {
    }

    /** x_->MergeFrom(from) */
    method MergeHeld(k: nat, from: SubMessage)
      requires Linked() && k < BITS && contents[k].To?
      requires from.Valid() && from.schema == SubSchema(Shape(), k) && from !in Parts()
      modifies this`contents, Parts()`val
      ensures Linked() && contents == old(contents)[k := To(Merge(old(contents[k].msg), from.val))]
      ensures Conforms(SubSchema(Shape(), k), contents[k].msg)
    {
      hide Shape, Sound, Conforms, Merge;
      assert parts[k] in Parts();
      parts[k].MergeFrom(from);
      Relink(k);
    }

    /** mutable_x()->MergeFrom(from): the part is merged into, whether it was there or not. */
    method UpdatePart(k: nat, from: SubMessage)
      requires Valid() && k < BITS && from.Valid() && from.schema == SubSchema(Shape(), k) && from !in Parts()
      modifies this`hasBits, this`parts, this`contents, Parts()`val
      ensures Valid() && fresh(Parts() - old(Parts())) && |old(Value()).slots| == BITS
      ensures Value() == Put(old(Value()), k, Sub(Merge(Existing(old(Value()).slots[k], from.schema), from.val)))
    {
      hide Shape, Sound, Invariant, ValueOf, Linked, Conforms, Merge, Existing, Content;
      Held(k);
      Counts();
      Bounds(Shape(), Snap());
      hasBits := hasBits + {k};
      var p := Ensure(k);
      GrewBy(old(parts), k, p);
      MergeHeld(k, from);
      Counts();
      Stored(old(Snap()), k);
    }

    // ------------------------------------------------------ clear and merge

    method ClearIfSet(k: nat, ghost start: seq<Pointee>)
      requires Linked() && k < BITS && EmptiedUpto(contents, start, k)
      requires if k in hasBits then start[k].To? else start[k] == Emptied(start[k], SubSchema(Shape(), k))
      modifies this`contents, Parts()`val
      ensures Linked() && EmptiedUpto(contents, start, k + 1)
    {
      hide Shape, Sound, Conforms;
      if k in hasBits {
        parts[k].Clear();
        Relink(k);
      }
    }

    /** The group guarded by 255. */
    method ClearFirst(ghost start: seq<Pointee>)
      requires Linked() && EmptiedUpto(contents, start, 0)
      requires forall k | 0 <= k < 8 ::
                 if k in hasBits then start[k].To? else start[k] == Emptied(start[k], SubSchema(Shape(), k))
      modifies this`contents, Parts()`val
      ensures Linked() && EmptiedUpto(contents, start, 8)
    {
      hide Shape, Linked, EmptiedUpto;
      EmptiedSize(contents, start, 0);
      ClearIfSet(TEXT, start);
      ClearIfSet(PICTURE, start);
      ClearIfSet(VOICE, start);
      ClearIfSet(CARD, start);
      ClearIfSet(LOCATION, start);
      ClearIfSet(REDPKT, start);
      ClearIfSet(SHARE, start);
      ClearIfSet(JSON, start);
    }

    /** Clear skips parts by the guard 255 and by bit 8, and yet leaves the object as new. */
    method Clear()
      requires Valid()
      modifies this`hasBits, this`contents, this`unknown, Parts()`val
      ensures Valid() && IsFresh(Shape(), Snap()) && Value() == Empty(S.MsgContent)
    {
      hide Shape, Ones, Shl, Test, Sound, Linked, Invariant, ValueOf, EmptiedUpto;
      ghost var start := contents;
      ClearStart(Snap());
      MaskValues();
      if Test(hasBits, 255) {
        ClearFirst(start);
      } else {
        GuardOff(hasBits, 255, 8, 0);
        SkipEmptied(contents, start, hasBits, 0, 8);
      }
      ClearIfSet(WARING, start);
      hasBits := {};
      unknown := [];
      ClearEnd(Snap(), start);
      FreshInvariant(Shape(), Snap());
      Bounds(Shape(), Snap());
    }

    /** The two objects share no part. */
    ghost predicate Apart(from: MsgContent)
      reads this`parts, from`parts
    {
      from != this && Parts() !! from.Parts()
    }

    /** mutable_x()->MergeFrom(from.x()), up to the has-bit. */
    method MergeInto(from: MsgContent, k: nat)
      requires Linked() && from.Linked() && Apart(from) && k < BITS && from.contents[k].To?
      modifies this`parts, this`contents, Parts()`val
      ensures Linked() && from.Linked() && Apart(from) && fresh(Parts() - old(Parts()))
      ensures contents == old(contents)[k := MergedSub(SubSchema(Shape(), k), old(contents)[k], true, from.contents[k])]
    {
      hide Shape, Sound, Linked, Conforms, Merge;
      from.PartAt(k);
      Counts();
      var p := Ensure(k);
      GrewBy(old(parts), k, p);
      MergeHeld(k, from.parts[k]);
    }

    /** One member of the merge. */
    method MergePart(from: MsgContent, k: nat, ghost h0: word, ghost c0: seq<Pointee>)
      requires Linked() && from.Linked() && Apart(from) && k < BITS && |from.contents| == BITS
      requires k in from.hasBits ==> from.contents[k].To?
      requires SubsUpto(Shape(), contents, c0, from.hasBits, from.contents, k)
      requires MergedUpto(hasBits, [], h0, [], from.hasBits, [], k)
      modifies this`hasBits, this`parts, this`contents, Parts()`val
      ensures Linked() && from.Linked() && Apart(from) && fresh(Parts() - old(Parts()))
      ensures SubsUpto(Shape(), contents, c0, from.hasBits, from.contents, k + 1)
      ensures MergedUpto(hasBits, [], h0, [], from.hasBits, [], k + 1)
    {
      hide Shape, Linked, Merge, MergedSub, Sound, MergedUpto, SubsUpto;
      SubsStep(contents, c0, from.hasBits, from.contents, k);
      MarkNested(hasBits, [], h0, [], from.hasBits, [], k);
      if k in from.hasBits {
        hasBits := hasBits + {k};
        MergeInto(from, k);
      }
    }

    /** The group guarded by 255: each part sets its own has-bit. */
    method MergeFirst(from: MsgContent, ghost h0: word, ghost c0: seq<Pointee>)
      requires Linked() && from.Linked() && Apart(from) && |from.contents| == BITS
      requires forall k | 0 <= k < BITS && k in from.hasBits :: from.contents[k].To?
      requires SubsUpto(Shape(), contents, c0, from.hasBits, from.contents, 0)
      requires MergedUpto(hasBits, [], h0, [], from.hasBits, [], 0)
      modifies this`hasBits, this`parts, this`contents, Parts()`val
      ensures Linked() && from.Linked() && Apart(from) && fresh(Parts() - old(Parts()))
      ensures SubsUpto(Shape(), contents, c0, from.hasBits, from.contents, 8)
      ensures MergedUpto(hasBits, [], h0, [], from.hasBits, [], 8)
    {
      hide Shape, Linked, SubsUpto, MergedUpto;
      MergePart(from, TEXT, h0, c0);
      MergePart(from, PICTURE, h0, c0);
      MergePart(from, VOICE, h0, c0);
      MergePart(from, CARD, h0, c0);
      MergePart(from, LOCATION, h0, c0);
      MergePart(from, REDPKT, h0, c0);
      MergePart(from, SHARE, h0, c0);
      MergePart(from, JSON, h0, c0);
    }

    /** MergeFrom: parts are merged into, and no OR of the has-bits is needed. */
    method MergeFrom(from: MsgContent)
      requires Valid() && from.Valid() && Apart(from)
      modifies this`hasBits, this`parts, this`contents, this`unknown, Parts()`val
      ensures Valid() && from.Valid() && Apart(from) && fresh(Parts() - old(Parts()))
      ensures Value() == Merge(old(Value()), from.Value()) && hasBits == old(hasBits) + from.hasBits
    {
      hide Shape, Ones, Shl, Test, Sound, Linked, Invariant, ValueOf, SubsUpto, MergedUpto, NumbersUpto, Merge;
      ghost var h0, c0 := hasBits, contents;
      Bounds(Shape(), Snap());
      Bounds(Shape(), from.Snap());
      MergeStart(Shape(), Snap(), from.Snap());
      MaskValues();
      unknown := unknown + from.unknown;
      if Test(from.hasBits, 255) {
        MergeFirst(from, h0, c0);
      } else {
        GuardOff(from.hasBits, 255, 8, 0);
        SkipSubs(Shape(), contents, c0, from.hasBits, from.contents, 0, 8);
        SkipStrings(hasBits, [], h0, [], from.hasBits, [], 0, 8);
      }
      MergePart(from, WARING, h0, c0);
      BitsBelow(Shape(), from.Snap());
      MergeBits(hasBits, [], h0, [], from.hasBits, [], BITS);
      SkipNumbers(BITS, [], [], from.hasBits, [], BITS, BITS);
      MergeEnd(Shape(), old(Snap()), from.Snap(), Snap(), hasBits, BITS);
      Bounds(Shape(), Snap());
    }

    method CopyFrom(from: MsgContent)
      requires Valid() && from.Valid() && (from == this || Apart(from))
      modifies this`hasBits, this`parts, this`contents, this`unknown, Parts()`val
      ensures Valid() && Value() == old(from.Value()) && fresh(Parts() - old(Parts()))
      ensures from != this ==> from.Valid() && from.Value() == old(from.Value()) && Apart(from)
    {
      hide Shape, Invariant, ValueOf, Linked, Merge;
      if from == this {
        return;
      }
      Clear();
      MergeFrom(from);
      ValueConforms(Shape(), from.Snap());
      Bounds(Shape(), from.Snap());
      MergeLeftIdentity(S.MsgContent, from.Value());
    }

    /** One check of IsInitialized. */
    method PartInitialized(k: nat, sofar: bool) returns (r: bool)
      requires Valid() && k < BITS && (sofar <==> InitializedUpto(Snap(), k))
      ensures Valid() && (r <==> InitializedUpto(Snap(), k + 1))
    {
      hide Shape, Sound, Invariant, Initialized, Conforms;
      Bounds(Shape(), Snap());
      r := sofar;
      if k in hasBits {
        var part := parts[k].IsInitialized();
        r := sofar && part;
      }
    }

    /** IsInitialized: nothing is required here, but every part that is set must be initialized. */
    method IsInitialized() returns (r: bool)
      requires Valid()
      ensures r <==> Initialized(S.MsgContent, Value())
    {
      hide Shape, Invariant, ValueOf, Linked, Initialized, InitializedUpto;
      Bounds(Shape(), Snap());
      PartsInitialized(Snap());
      r := PartInitialized(TEXT, true);
      r := PartInitialized(PICTURE, r);
      r := PartInitialized(VOICE, r);
      r := PartInitialized(CARD, r);
      r := PartInitialized(LOCATION, r);
      r := PartInitialized(REDPKT, r);
      r := PartInitialized(SHARE, r);
      r := PartInitialized(JSON, r);
      r := PartInitialized(WARING, r);
    }

    // ------------------------------------------------------------- parsing

    /** ReadMessage into part `k`. */
    method ReadInto(input: CodedInputStream, k: nat) returns (ok: bool)
      requires Linked() && input.Valid() && 0 <= input.budget && k < BITS && contents[k].To?
      modifies this`contents, Parts()`val, input`pos, input`limit, input`budget, input`legitimateEnd
      ensures Linked() && input.Valid() && contents[k].To? && Conforms(SubSchema(Shape(), k), contents[k].msg)
      ensures contents == old(contents)[k := contents[k]]
      ensures ok ==> input.limit == old(input.limit) && input.budget == old(input.budget)
      ensures ReadNested(SubSchema(Shape(), k), old(input.budget), old(contents[k].msg), old(input.Rest()))
              == if ok then Got(contents[k].msg, input.Rest()) else Bad
      ensures LeavesNested(SubSchema(Shape(), k), old(input.budget), old(contents[k].msg), old(input.Rest()),
                           contents[k].msg)
    {
      hide Shape, Sound, Conforms, ReadNested, LeavesNested;
      assert parts[k] in Parts();
      ok := ReadMessage(input, parts[k]);
      Relink(k);
    }

    /** A case of the switch: mutable_, then ReadMessage on top of what the part holds. */
    method ReadPart(input: CodedInputStream, k: nat) returns (ok: bool)
      requires Valid() && input.Valid() && 0 <= input.budget && k < BITS
      modifies this`hasBits, this`parts, this`contents, Parts()`val
      modifies input`pos, input`limit, input`budget, input`legitimateEnd
      ensures Valid() && input.Valid() && fresh(Parts() - old(Parts()))
      ensures ok ==> input.limit == old(input.limit) && input.budget == old(input.budget)
      ensures |old(Value()).slots| == |Value().slots| == BITS
      ensures Value() == Put(old(Value()), k, Value().slots[k])
      ensures ReadValue(KindOf(Shape(), k), old(input.budget), old(Value()).slots[k], 2, old(input.Rest()))
              == if ok then Got(Value().slots[k], input.Rest()) else Bad
      ensures LeavesValue(KindOf(Shape(), k), old(input.budget), old(Value()).slots[k], 2, old(input.Rest()),
                          Value().slots[k])
    {
      hide Shape, Sound, Invariant, MessageOf, Linked, Conforms, ReadNested, LeavesNested, Content, Existing;
      Held(k);
      Counts();
      hasBits := hasBits + {k};
      var p := Ensure(k);
      GrewBy(old(parts), k, p);
      ok := ReadInto(input, k);
      Counts();
      assert contents == old(contents)[k := contents[k]];
      Stored(old(Snap()), k);
    }

    /** Part `k` was changed and its bit set: the object is valid and its field is that part. */
    lemma Stored(before: Store, k: nat)
      requires Invariant(Shape(), before) && k < BITS && before.strs == [] && before.nums == [] && |contents| == BITS
      requires hasBits == before.has + {k} && unknown == before.unknown && |before.subs| == BITS
      requires contents[k].To? && contents == before.subs[k := contents[k]]
      requires Conforms(SubSchema(Shape(), k), contents[k].msg)
      ensures Invariant(Shape(), Snap()) && |Value().slots| == |MessageOf(before).slots| == BITS
      ensures Value() == Put(MessageOf(before), k, Sub(contents[k].msg))
      ensures Value().slots[k] == Sub(contents[k].msg)
    {
      hide Shape, Sound, Invariant, ValueOf, Conforms;
      StoreNested(Shape(), before, k, contents[k].msg);
      assert Snap() == WithNested(before, k, k, contents[k].msg);
      Bounds(Shape(), Snap());
      SlotCount(Shape(), before);
      SlotCount(Shape(), Snap());
    }

    lemma GrewBy(was: seq<SubMessage?>, k: nat, p: SubMessage)
      requires k < |was| && parts == was[k := p]
      ensures forall q | q in Parts() :: q == p || q in was
    {
    }

    method ReadField(input: CodedInputStream, tag: nat) returns (ok: bool)
      requires Valid() && input.Valid() && 0 <= input.budget && 1 <= tag < TWO_32
      modifies this`hasBits, this`parts, this`contents, this`unknown, Parts()`val
      modifies input`pos, input`limit, input`budget, input`legitimateEnd
      ensures Valid() && input.Valid() && fresh(Parts() - old(Parts()))
      ensures ok ==> input.limit == old(input.limit) && input.budget == old(input.budget)
      ensures Message.ReadField(S.MsgContent, old(input.budget), old(Value()), tag, old(input.Rest()))
              == if ok then Got(Value(), input.Rest()) else Bad
      ensures !ok ==> LeavesField(S.MsgContent, old(input.budget), old(Value()), tag, old(input.Rest()), Value())
    {
      hide Shape, Knows, Sound, Invariant, Linked, ReadValue, SkipField, Find;
      TagKnown(Shape(), tag);
      SlotCount(Shape(), Snap());
      Bounds(Shape(), Snap());
      if CaseMatches(Shape(), tag) {
        ok := ReadPart(input, tag / 8 - 1);
      } else {
        var p;
        ok, p := input.SkipUnknown(tag);
        if ok {
          StoreUnknown(Shape(), Snap(), Record(tag / 8, p));
          unknown := unknown + [Record(tag / 8, p)];
        }
      }
    }

    /** MergePartialFromCodedStream, for every input and every prior content of the object. */
    method MergePartialFromCodedStream(input: CodedInputStream) returns (ok: bool)
      requires Valid() && input.Valid() && 0 <= input.budget
      modifies this`hasBits, this`parts, this`contents, this`unknown, Parts()`val
      modifies input`pos, input`limit, input`budget, input`legitimateEnd
      ensures Valid() && input.Valid() && fresh(Parts() - old(Parts()))
      ensures ok ==> input.limit == old(input.limit) && input.budget == old(input.budget)
      ensures match Parse(S.MsgContent, old(input.budget), old(Value()), old(input.Rest()))
              case Complete(m) => ok && Value() == m && input.Rest() == [] && input.legitimateEnd
              case Stopped(m) => ok && Value() == m && !input.legitimateEnd
              case Failed => !ok
      ensures Leaves(S.MsgContent, old(input.budget), old(Value()), old(input.Rest()), Value())
    {
      hide Valid, Value, Follows, Parse, Leaves, LeavesField, Message.ReadField;
      ghost var m0, bs0 := Value(), input.Rest();
      FollowsStart(S.MsgContent, input.budget, m0, bs0);
      while true
        invariant Valid() && input.Valid() && fresh(Parts() - old(Parts()))
        invariant input.limit == old(input.limit) && input.budget == old(input.budget)
        invariant Follows(S.MsgContent, input.budget, m0, bs0, Value(), input.Rest())
        decreases |input.Rest()|
      {
        Turn(S.MsgContent, input.budget, m0, bs0, Value(), input.Rest());
        var tag := input.ReadTag();
        if tag == 0 {
          return true;
        }
        ok := ReadField(input, tag);
        if !ok {
          return false;
        }
      }
    }

    // ---------------------------------------------------------------- size

    /** What the members from has-bit `lo` up to `hi` count for. */
    ghost function Bytes(lo: nat, hi: nat): (n: nat)
      requires Valid() && lo <= hi <= BITS
      reads this`hasBits, this`parts, this`contents, this`unknown, Parts()`val
    {
      LenSum(Shape(), Snap(), lo, hi)
    }

    /** The set parts below `k` have their sizes cached. */
    ghost predicate CachedUpto(k: nat)
      reads this`hasBits, this`parts, Parts()`val, Parts()`cachedSize
    {
      forall j | 0 <= j < |parts| && j < k && j in hasBits && parts[j] != null :: parts[j].CacheFilled()
    }

    /** The cached size is what ByteSizeLong leaves. */
    ghost predicate CacheFilled()
      reads this`hasBits, this`contents, this`unknown, this`cachedSize
    {
      cachedSize == ToCachedSize(ByteSize(S.MsgContent, Value()))
    }

    /** So is the cached size of every part. */
    ghost predicate CachesFilled()
      reads this`hasBits, this`parts, Parts()`val, Parts()`cachedSize
    {
      CachedUpto(BITS)
    }

    /** Every part's cached size is its encoded length. */
    ghost predicate CachesExact()
      reads this`hasBits, this`parts, Parts()`val, Parts()`cachedSize
    {
      forall j | 0 <= j < |parts| && j in hasBits && parts[j] != null :: parts[j].CacheExact()
    }

    /** if (has_x()) total_size += 1 + MessageSize(*x_), which also fills the part's cache. */
    method AddPart(k: nat, total: nat, ghost lo: nat) returns (r: nat)
      requires Valid() && lo <= k < BITS && total == Bytes(lo, k) && CachedUpto(k)
      modifies Parts()`cachedSize
      ensures Valid() && r == Bytes(lo, k + 1) && CachedUpto(k + 1)
    {
      hide Shape, Sound, Invariant, Conforms, ByteSize, DelimitedSize, Len;
      Bounds(Shape(), Snap());
      NestedLen(Shape(), Snap(), k);
      r := total;
      if k in hasBits {
        var n := parts[k].ByteSizeLong();
        r := total + 1 + DelimitedSize(n);
      }
    }

    /** The group guarded by 255. */
    method FirstSize() returns (total: nat)
      requires Valid()
      modifies Parts()`cachedSize
      ensures Valid() && total == Bytes(0, 8) && CachedUpto(8)
    {
      hide Shape, Ones, Shl, Test, Sound, Invariant, Linked, LenSum, CachedUpto;
      MaskValues();
      GuardOff(hasBits, 255, 8, 0);
      Bounds(Shape(), Snap());
      NothingCached();
      LenSumClear(Shape(), Snap(), 0, 0);
      total := 0;
      if Test(hasBits, 255) {
        total := AddPart(TEXT, total, 0);
        total := AddPart(PICTURE, total, 0);
        total := AddPart(VOICE, total, 0);
        total := AddPart(CARD, total, 0);
        total := AddPart(LOCATION, total, 0);
        total := AddPart(REDPKT, total, 0);
        total := AddPart(SHARE, total, 0);
        total := AddPart(JSON, total, 0);
      } else {
        LenSumClear(Shape(), Snap(), 0, 8);
      }
    }

    lemma NothingCached()
      requires Valid()
      ensures CachedUpto(0) && ((forall k | 0 <= k < 8 :: k !in hasBits) ==> CachedUpto(8))
    {
    }

    lemma SizeParts()
      requires Valid()
      ensures ByteSize(S.MsgContent, Value()) == |EncodeRecords(unknown)| + Bytes(0, 9) && EncodeRecords([]) == []
    {
      hide Shape, Sound, Invariant, Linked, LenSum, ValueOf, ByteSize;
      Bounds(Shape(), Snap());
      TotalLength(Shape(), Snap());
    }

    /** ByteSizeLong: the size of the message, and the cached size of every part. */
    method ByteSizeLong() returns (total: nat)
      requires Valid()
      modifies this`cachedSize, Parts()`cachedSize
      ensures Valid() && total == ByteSize(S.MsgContent, Value()) == |Emit(S.MsgContent, Value())|
      ensures CacheFilled() && CachesFilled()
      ensures total < TWO_31 ==> CacheExact() && CachesExact()
    {
      hide Shape, Invariant, Linked, LenSum, MessageOf, Serialize, Emit, ByteSize, CachedUpto, CachesExact;
      EmitLength(S.MsgContent, Value());
      SizeParts();
      total := 0;
      if unknown != [] {
        total := total + |EncodeRecords(unknown)|;
      }
      var first := FirstSize();
      first := AddPart(WARING, first, 0);
      total := total + first;
      cachedSize := ToCachedSize(total);
      if total < TWO_31 {
        SmallIsExact(S.MsgContent, Value());
        SmallCaches();
      }
    }

    /** Filled caches are exact when the whole message is under 2^31 bytes. */
    lemma SmallCaches()
      requires Valid() && CachesFilled() && ByteSize(S.MsgContent, Value()) < TWO_31
      ensures CachesExact()
    {
      hide Shape, Invariant, MessageOf, Linked, SubMessage.CacheFilled, SubMessage.CacheExact, ByteSize;
      Counts();
      forall j | 0 <= j < BITS && j in hasBits && parts[j] != null ensures parts[j].CacheExact() { SmallCache(j); }
    }

    lemma SmallCache(j: nat)
      requires Valid() && j < BITS && ByteSize(S.MsgContent, Value()) < TWO_31
      requires |parts| == BITS && j in hasBits && parts[j] != null && parts[j].CacheFilled()
      ensures parts[j].CacheExact()
    {
      hide Shape, Sound, Invariant, ValueOf, Linked, Conforms, Serialize, ByteSize;
      Counts();
      Bounds(Shape(), Snap());
      NestedWithin(Shape(), Snap(), j);
      PartAt(j);
      SmallIsExact(parts[j].schema, parts[j].val);
    }

    /** The cached size is the length of the encoding. */
    ghost predicate CacheExact()
      reads this`hasBits, this`contents, this`unknown, this`cachedSize
    {
      cachedSize == |Serialize(S.MsgContent, Value())| < TWO_31
    }

    // --------------------------------------------------------- serializing

    /** Writes part `i` behind its cached size if its has-bit is set. */
    method WriteField(i: nat, out: bytes, ghost goal: bytes) returns (r: bytes)
      requires Valid() && CachesFilled() && i < BITS && Written(Shape(), out, Value(), i, goal)
      ensures Valid() && CachesFilled() && Written(Shape(), r, Value(), i + 1, goal)
    {
      hide Shape, Sound, Invariant, ValueOf, Written, FieldBytes, Emit, ByteSize, Conforms, EncodeTag, EmitDelimited;
      Bounds(Shape(), Snap());
      FieldBytesForm(Shape(), Snap(), i);
      r := out;
      if i in hasBits {
        r := WriteMessage(i + 1, parts[i], r);
      } else {
        assert r == out + [];
      }
      WroteField(Shape(), Snap(), i, out, r, goal);
    }

    /** SerializeWithCachedSizes: from filled caches it writes what ByteSizeLong has counted. */
    method SerializeWithCachedSizes(out: bytes) returns (r: bytes)
      requires Valid() && CachesFilled()
      ensures r == out + Emit(S.MsgContent, Value())
    {
      hide Shape, Written, Invariant, Linked, ValueOf, Emit, CachesFilled;
      ghost var goal := out + Emit(S.MsgContent, Value());
      WroteNothing(Shape(), out, Value(), goal);
      r := out;
      r := WriteField(TEXT, r, goal);
      r := WriteField(PICTURE, r, goal);
      r := WriteField(VOICE, r, goal);
      r := WriteField(CARD, r, goal);
      r := WriteField(LOCATION, r, goal);
      r := WriteField(REDPKT, r, goal);
      r := WriteField(SHARE, r, goal);
      r := WriteField(JSON, r, goal);
      r := WriteField(WARING, r, goal);
      Bounds(Shape(), Snap());
      WroteAll(Shape(), Snap(), r, goal);
      if unknown != [] {
        r := r + EncodeRecords(unknown);
      }
    }
  }

  /** A msg_content is written behind its cached size. */
  method WriteMsgContent(number: nat, value: MsgContent, out: bytes) returns (r: bytes)
    requires value.Valid() && value.CacheFilled() && value.CachesFilled()
    ensures r == out + (EncodeTag(number, 2) + EmitDelimited(Emit(S.MsgContent, value.Value())))
  {
    hide MsgContent.Valid, MsgContent.Value, MsgContent.CachesFilled, Emit, ByteSize, EncodeTag, EncodeVarint;
    EmitLength(S.MsgContent, value.Value());
    CachedPrefix(ByteSize(S.MsgContent, value.Value()));
    r := out + EncodeTag(number, 2) + EncodeVarint(value.cachedSize % TWO_32);
    r := value.SerializeWithCachedSizes(r);
  }

  /** ReadMessage for a msg_content. */
  method ReadMsgContent(input: CodedInputStream, value: MsgContent) returns (ok: bool)
    requires value.Valid() && input.Valid() && 0 <= input.budget
    modifies value`hasBits, value`parts, value`contents, value`unknown, value.Parts()`val
    modifies input`pos, input`limit, input`budget, input`legitimateEnd
    ensures value.Valid() && input.Valid() && fresh(value.Parts() - old(value.Parts()))
    ensures ok ==> input.limit == old(input.limit) && input.budget == old(input.budget)
    ensures ReadNested(S.MsgContent, old(input.budget), old(value.Value()), old(input.Rest()))
            == if ok then Got(value.Value(), input.Rest()) else Bad
    ensures LeavesNested(S.MsgContent, old(input.budget), old(value.Value()), old(input.Rest()), value.Value())
  {
    hide MsgContent.Valid, MsgContent.Value, Parse, Leaves, ReadSize;
    var begun, enclosing := input.OpenMessage();
    if !begun {
      return false;
    }
    ok := value.MergePartialFromCodedStream(input);
    if !ok {
      return false;
    }
    ok := input.DecrementRecursionDepthAndPopLimit(enclosing);
  }
}

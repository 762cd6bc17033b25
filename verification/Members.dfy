/**
  How a generated class stores its fields.  Members sit in has-bit order: the
  strings, the pointers to nested messages, then the block of numbers; the
  fields of the schema are in number order.  What a state of the members means
  is defined here once, for every class.
 */
module Members {
  import opened Wire
  import opened Unknown
  import opened Message
  import opened HasBits
  import opened MergeLaws
  import opened Sizing
  import opened Writing
  import S = Schemas

  /** `bitOf` gives the has-bit of each field, `fieldOf` is its inverse, and `tagOf` is the
      tag that each case of the parser's switch compares with. */
  datatype Layout = Layout(
    schema: Schema, strings: nat, nested: nat, bitOf: seq<nat>, fieldOf: seq<nat>, tagOf: seq<nat>)

  predicate KindAt(l: Layout, k: nat, kind: Kind) {
    if k < l.strings then kind.Bytes? else if k < l.strings + l.nested then kind.Message? else kind.Scalar?
  }

  /** The layout agrees with the schema in numbers, tags and kinds. */
  ghost predicate Sound(l: Layout) {
    && |l.schema.fields| == |l.bitOf| == |l.fieldOf| == |l.tagOf| <= 15
    && l.strings + l.nested <= |l.bitOf|
    && S.Consecutive(l.schema)
    && (forall i | 0 <= i < |l.bitOf| :: l.bitOf[i] < |l.bitOf| && l.fieldOf[l.bitOf[i]] == i)
    && (forall k | 0 <= k < |l.bitOf| :: l.fieldOf[k] < |l.bitOf| && l.bitOf[l.fieldOf[k]] == k)
    && (forall i | 0 <= i < |l.bitOf| :: l.tagOf[i] == MakeTag(i + 1, WireType(l.schema.fields[i].kind)))
    && (forall i | 0 <= i < |l.bitOf| :: KindAt(l, l.bitOf[i], l.schema.fields[i].kind))
  }

  function NumberCount(l: Layout): (n: int) { |l.bitOf| - l.strings - l.nested }

  /** The kind of the member behind has-bit `k`. */
  function KindOf(l: Layout, k: nat): (kind: Kind)
    requires Sound(l) && k < |l.bitOf|
    ensures KindAt(l, k, kind)
  {
    assert l.bitOf[l.fieldOf[k]] == k;
    l.schema.fields[l.fieldOf[k]].kind
  }

  /** The schema behind nested pointer `j`. */
  function SubSchema(l: Layout, j: nat): (s: Schema)
    requires Sound(l) && j < l.nested
  {
    KindOf(l, l.strings + j).schema
  }

  datatype Pointee = Null | To(msg: Msg)

  /** The members of one object, with the nested messages it points to. */
  datatype Store = Store(has: word, strs: seq<bytes>, subs: seq<Pointee>, nums: seq<int>, unknown: seq<Record>)

  ghost predicate Shaped(l: Layout, st: Store) {
    Sound(l) && |st.strs| == l.strings && |st.subs| == l.nested && |st.nums| == NumberCount(l)
  }

  /** A set bit means there is an object; a clear one means there is none or an empty one. */
  predicate PointerOk(s: Schema, isSet: bool, p: Pointee) {
    && (isSet ==> p.To?)
    && (p.To? ==> Conforms(s, p.msg))
    && (p.To? && !isSet ==> p.msg == Empty(s))
  }

  /** The class invariant: a clear has-bit means a default member. */
  ghost predicate Invariant(l: Layout, st: Store) {
    && Shaped(l, st)
    && (forall k | k in st.has :: k < |l.bitOf|)
    && (forall k | 0 <= k < l.strings && k !in st.has :: st.strs[k] == [])
    && (forall j | 0 <= j < |st.subs| :: PointerOk(SubSchema(l, j), l.strings + j in st.has, st.subs[j]))
    && (forall j | 0 <= j < |st.nums| && j + l.strings + l.nested !in st.has :: st.nums[j] == 0)
    && (forall j | 0 <= j < |st.nums| :: InRange(KindOf(l, j + l.strings + l.nested).w, st.nums[j]))
  }

  /** Member `k`, if its has-bit is set. */
  ghost function Member(l: Layout, st: Store, k: nat): (v: Value)
    requires Shaped(l, st) && k < |l.bitOf|
  {
    if k !in st.has then Absent
    else if k < l.strings then Raw(st.strs[k])
    else if k < l.strings + l.nested then (var p := st.subs[k - l.strings]; if p.To? then Sub(p.msg) else Absent)
    else Num(st.nums[k - l.strings - l.nested])
  }

  /** The message that the members stand for. */
  ghost function ValueOf(l: Layout, st: Store): (m: Msg)
    requires Shaped(l, st)
    ensures |m.slots| == |l.bitOf| && m.unknown == st.unknown
    ensures forall i | 0 <= i < |l.bitOf| :: m.slots[i] == Member(l, st, l.bitOf[i])
  {
    Msg(seq(|l.bitOf|, i requires 0 <= i < |l.bitOf| => Member(l, st, l.bitOf[i])), st.unknown)
  }

  /** An object without has-bits and unknown fields is the default message, whatever its members hold. */
  lemma ClearIsEmpty(l: Layout, st: Store)
    requires Shaped(l, st) && st.has == {} && st.unknown == []
    ensures ValueOf(l, st) == Empty(l.schema)
  {
    forall i | 0 <= i < |l.bitOf| ensures ValueOf(l, st).slots[i] == Empty(l.schema).slots[i] {
      assert KindAt(l, l.bitOf[i], l.schema.fields[i].kind);
    }
  }

  lemma ValueConforms(l: Layout, st: Store)
    requires Invariant(l, st)
    ensures Conforms(l.schema, ValueOf(l, st))
  {
    forall i | 0 <= i < |l.bitOf| ensures ConformsValue(l.schema.fields[i].kind, ValueOf(l, st).slots[i]) {
      assert KindAt(l, l.bitOf[i], l.schema.fields[i].kind);
      assert l.fieldOf[l.bitOf[i]] == i;
    }
  }

  /** Changing member `k` changes the slot of its field and no other. */
  lemma Changed(l: Layout, a: Store, b: Store, k: nat)
    requires Shaped(l, a) && Shaped(l, b) && k < |l.bitOf| && a.unknown == b.unknown
    requires forall j | 0 <= j < |l.bitOf| && j != k :: Member(l, a, j) == Member(l, b, j)
    ensures l.fieldOf[k] < |l.bitOf| && ValueOf(l, b) == Put(ValueOf(l, a), l.fieldOf[k], Member(l, b, k))
    ensures ValueOf(l, b).slots[l.fieldOf[k]] == Member(l, b, k)
  {
    var i := l.fieldOf[k];
    assert l.bitOf[i] == k;
    forall j | 0 <= j < |l.bitOf| && j != i ensures l.bitOf[j] != k { assert l.fieldOf[l.bitOf[j]] == j; }
    assert ValueOf(l, b).slots == Put(ValueOf(l, a), i, Member(l, b, k)).slots;
  }

  /** Merging member by member is merging the messages. */
  lemma MergedValue(l: Layout, a: Store, b: Store, r: Store)
    requires Shaped(l, a) && Shaped(l, b) && Shaped(l, r) && r.unknown == a.unknown + b.unknown
    requires forall k | 0 <= k < |l.bitOf| :: Member(l, r, k) == MergeValue(Member(l, a, k), Member(l, b, k))
    ensures ValueOf(l, r) == Merge(ValueOf(l, a), ValueOf(l, b))
  {
    assert ValueOf(l, r).slots == Merge(ValueOf(l, a), ValueOf(l, b)).slots;
  }

  // ----------------------------------------------------- single updates

  function WithString(st: Store, k: nat, b: bytes): (r: Store)
    requires k < |st.strs|
  {
    st.(has := st.has + {k}, strs := st.strs[k := b])
  }

  function WithNumber(st: Store, k: nat, j: nat, n: int): (r: Store)
    requires j < |st.nums|
  {
    st.(has := st.has + {k}, nums := st.nums[j := n])
  }

  function WithNested(st: Store, k: nat, j: nat, m: Msg): (r: Store)
    requires j < |st.subs|
  {
    st.(has := st.has + {k}, subs := st.subs[j := To(m)])
  }

  lemma Bounds(l: Layout, st: Store)
    requires Invariant(l, st)
    ensures Shaped(l, st) && |st.strs| == l.strings && |st.subs| == l.nested && |st.nums| == NumberCount(l)
    ensures |l.fieldOf| == |l.bitOf| && forall k | 0 <= k < |l.bitOf| :: l.fieldOf[k] < |l.bitOf|
    ensures forall j | 0 <= j < l.nested && l.strings + j in st.has :: st.subs[j].To?
  {
  }

  lemma PointerAt(l: Layout, st: Store, j: nat)
    requires Invariant(l, st) && j < l.nested
    ensures PointerOk(SubSchema(l, j), l.strings + j in st.has, st.subs[j])
  {
  }

  /** Setting a string keeps the invariant and sets its field. */
  lemma StoreString(l: Layout, st: Store, k: nat, b: bytes)
    requires Invariant(l, st) && k < l.strings
    ensures var r := WithString(st, k, b);
            && Invariant(l, r) && ValueOf(l, r) == Put(ValueOf(l, st), l.fieldOf[k], Raw(b))
            && ValueOf(l, r).slots[l.fieldOf[k]] == Raw(b)
  {
    hide Sound, KindAt, Conforms;
    Changed(l, st, WithString(st, k, b), k);
  }

  lemma StoreNumber(l: Layout, st: Store, k: nat, n: int)
    requires Invariant(l, st) && l.strings + l.nested <= k < |l.bitOf| && InRange(KindOf(l, k).w, n)
    ensures var r := WithNumber(st, k, k - l.strings - l.nested, n);
            && Invariant(l, r) && ValueOf(l, r) == Put(ValueOf(l, st), l.fieldOf[k], Num(n))
            && ValueOf(l, r).slots[l.fieldOf[k]] == Num(n)
  {
    hide Sound, KindAt, Conforms;
    Changed(l, st, WithNumber(st, k, k - l.strings - l.nested, n), k);
  }

  /** Setting a has-bit over a default member keeps the invariant and affects its field only. */
  lemma MarkOnly(l: Layout, st: Store, k: nat)
    requires Invariant(l, st) && k < |l.bitOf| && !(l.strings <= k < l.strings + l.nested)
    ensures var r := st.(has := st.has + {k});
            && Invariant(l, r) && l.fieldOf[k] < |l.bitOf|
            && ValueOf(l, r) == Put(ValueOf(l, st), l.fieldOf[k], ValueOf(l, r).slots[l.fieldOf[k]])
            && var v, v' := ValueOf(l, st).slots[l.fieldOf[k]], ValueOf(l, r).slots[l.fieldOf[k]];
               if k < l.strings then v'.Raw? else v' == Num(NumberOf(v))
  {
    hide Sound, KindAt, Conforms;
    MemberSlot(l, st, k);
    Changed(l, st, st.(has := st.has + {k}), k);
  }

  /** Storing a nested message sets its field and keeps the invariant. */
  lemma StoreNested(l: Layout, st: Store, k: nat, m: Msg)
    requires Invariant(l, st) && l.strings <= k < l.strings + l.nested && Conforms(SubSchema(l, k - l.strings), m)
    ensures var r := WithNested(st, k, k - l.strings, m);
            && Invariant(l, r) && ValueOf(l, r) == Put(ValueOf(l, st), l.fieldOf[k], Sub(m))
            && ValueOf(l, r).slots[l.fieldOf[k]] == Sub(m)
  {
    hide Sound, KindAt, Conforms;
    Changed(l, st, WithNested(st, k, k - l.strings, m), k);
  }

  /** Resetting a member and its has-bit keeps the invariant and clears its field. */
  lemma DropString(l: Layout, st: Store, k: nat)
    requires Invariant(l, st) && k < l.strings
    ensures var r := st.(has := st.has - {k}, strs := st.strs[k := []]);
            Invariant(l, r) && ValueOf(l, r) == Put(ValueOf(l, st), l.fieldOf[k], Absent)
  {
    hide Sound, KindAt, Conforms;
    Changed(l, st, st.(has := st.has - {k}, strs := st.strs[k := []]), k);
  }

  lemma DropNumber(l: Layout, st: Store, k: nat)
    requires Invariant(l, st) && l.strings + l.nested <= k < |l.bitOf|
    ensures var r := st.(has := st.has - {k}, nums := st.nums[k - l.strings - l.nested := 0]);
            Invariant(l, r) && ValueOf(l, r) == Put(ValueOf(l, st), l.fieldOf[k], Absent)
  {
    hide Sound, KindAt, Conforms;
    Changed(l, st, st.(has := st.has - {k}, nums := st.nums[k - l.strings - l.nested := 0]), k);
  }

  lemma DropNested(l: Layout, st: Store, k: nat, p: Pointee)
    requires Invariant(l, st) && l.strings <= k < l.strings + l.nested
    requires p.Null? || p == To(Empty(SubSchema(l, k - l.strings)))
    ensures var r := st.(has := st.has - {k}, subs := st.subs[k - l.strings := p]);
            Invariant(l, r) && ValueOf(l, r) == Put(ValueOf(l, st), l.fieldOf[k], Absent)
  {
    hide Sound, KindAt, Conforms;
    EmptyConforms(SubSchema(l, k - l.strings));
    Changed(l, st, st.(has := st.has - {k}, subs := st.subs[k - l.strings := p]), k);
  }

  lemma MemberSlot(l: Layout, st: Store, k: nat)
    requires Invariant(l, st) && k < |l.bitOf|
    ensures l.fieldOf[k] < |l.bitOf| && ValueOf(l, st).slots[l.fieldOf[k]] == Member(l, st, k)
  {
    assert l.bitOf[l.fieldOf[k]] == k;
  }

  lemma AbsentIffClear(l: Layout, st: Store, k: nat)
    requires Invariant(l, st) && k < |l.bitOf|
    ensures l.fieldOf[k] < |l.bitOf| && (ValueOf(l, st).slots[l.fieldOf[k]].Absent? <==> k !in st.has)
  {
    MemberSlot(l, st, k);
  }

  lemma SlotCount(l: Layout, st: Store)
    requires Invariant(l, st)
    ensures |ValueOf(l, st).slots| == |l.bitOf| == |l.schema.fields|
    ensures forall i | 0 <= i < |l.bitOf| :: l.bitOf[i] < |l.bitOf| && l.schema.fields[i].kind == KindOf(l, l.bitOf[i])
  {
    forall i | 0 <= i < |l.bitOf| ensures l.schema.fields[i].kind == KindOf(l, l.bitOf[i]) {
      assert l.fieldOf[l.bitOf[i]] == i;
    }
  }

  lemma StoreUnknown(l: Layout, st: Store, r: Record)
    requires Invariant(l, st)
    ensures var st' := st.(unknown := st.unknown + [r]);
            Invariant(l, st') && ValueOf(l, st') == ValueOf(l, st).(unknown := st.unknown + [r])
  {
    assert ValueOf(l, st.(unknown := st.unknown + [r])).slots == ValueOf(l, st).slots;
  }

  // ------------------------------------------------------ clear and merge

  /** As a new object, up to nested objects that are kept but empty. */
  ghost predicate IsFresh(l: Layout, st: Store) {
    && Shaped(l, st) && st.has == {} && st.unknown == []
    && (forall k | 0 <= k < |st.strs| :: st.strs[k] == [])
    && (forall j | 0 <= j < |st.nums| :: st.nums[j] == 0)
    && (forall j | 0 <= j < |st.subs| :: st.subs[j].Null? || st.subs[j] == To(Empty(SubSchema(l, j))))
  }

  lemma FreshInvariant(l: Layout, st: Store)
    requires IsFresh(l, st)
    ensures Invariant(l, st) && ValueOf(l, st) == Empty(l.schema)
  {
    ClearIsEmpty(l, st);
    forall j | 0 <= j < l.nested ensures Conforms(SubSchema(l, j), Empty(SubSchema(l, j))) {
      EmptyConforms(SubSchema(l, j));
    }
  }

  /** The content of a nested object once mutable_ has made sure that it exists. */
  function Content(p: Pointee, s: Schema): Msg { if p.To? then p.msg else Empty(s) }

  /** What merging leaves behind a nested pointer. */
  function MergedSub(s: Schema, p: Pointee, isSet: bool, q: Pointee): (r: Pointee) {
    if isSet && q.To? then To(Merge(Content(p, s), q.msg)) else p
  }

  /** The nested pointers from bit to bit below `k` are merged. */
  ghost predicate SubsUpto(l: Layout, ps: seq<Pointee>, ps0: seq<Pointee>, fh: word, fp: seq<Pointee>, k: nat) {
    && Sound(l) && |ps| == |ps0| == |fp| == l.nested
    && forall j | 0 <= j < |ps| ::
         ps[j] == if l.strings + j < k then MergedSub(SubSchema(l, j), ps0[j], l.strings + j in fh, fp[j]) else ps0[j]
  }

  /** `r` is `a` after every member that `b` has was assigned or merged into it. */
  ghost predicate IsMerge(l: Layout, a: Store, b: Store, r: Store) {
    && Shaped(l, a) && Shaped(l, b) && Shaped(l, r)
    && r.has == a.has + b.has && r.unknown == a.unknown + b.unknown
    && (forall k | 0 <= k < l.strings :: r.strs[k] == if k in b.has then b.strs[k] else a.strs[k])
    && (forall j | 0 <= j < |r.nums| :: r.nums[j] == if j + l.strings + l.nested in b.has then b.nums[j] else a.nums[j])
    && SubsUpto(l, r.subs, a.subs, b.has, b.subs, l.strings + l.nested)
  }

  /** Merging the members keeps the invariant and is merging the messages. */
  lemma MergeKeeps(l: Layout, a: Store, b: Store, r: Store)
    requires Invariant(l, a) && Invariant(l, b) && IsMerge(l, a, b, r)
    ensures Invariant(l, r) && ValueOf(l, r) == Merge(ValueOf(l, a), ValueOf(l, b))
  {
    hide Conforms, MergeValue, Merge;
    forall j | 0 <= j < l.nested
      ensures PointerOk(SubSchema(l, j), l.strings + j in r.has, r.subs[j])
    {
      MergeNested(l, a, b, r, j);
    }
    forall k | 0 <= k < |l.bitOf| ensures Member(l, r, k) == MergeValue(Member(l, a, k), Member(l, b, k)) {
      if l.strings <= k < l.strings + l.nested {
        MergeNested(l, a, b, r, k - l.strings);
        assert l.strings + (k - l.strings) == k;
      } else {
        MergedMember(l, a, b, r, k);
      }
    }
    MergedValue(l, a, b, r);
  }

  lemma MergeNested(l: Layout, a: Store, b: Store, r: Store, j: nat)
    requires Invariant(l, a) && Invariant(l, b) && IsMerge(l, a, b, r) && j < l.nested
    ensures PointerOk(SubSchema(l, j), l.strings + j in r.has, r.subs[j])
    ensures Member(l, r, l.strings + j) == MergeValue(Member(l, a, l.strings + j), Member(l, b, l.strings + j))
  {
    hide Sound, Conforms;
    var s, k := SubSchema(l, j), l.strings + j;
    assert PointerOk(s, k in a.has, a.subs[j]) && PointerOk(s, k in b.has, b.subs[j]);
    EmptyConforms(s);
    if k in b.has {
      MergeConforms(s, Content(a.subs[j], s), b.subs[j].msg);
      if k !in a.has { MergeLeftIdentity(s, b.subs[j].msg); }
    }
  }

  lemma MergedMember(l: Layout, a: Store, b: Store, r: Store, k: nat)
    requires Invariant(l, a) && Invariant(l, b) && IsMerge(l, a, b, r) && k < |l.bitOf|
    requires !(l.strings <= k < l.strings + l.nested)
    ensures Member(l, r, k) == MergeValue(Member(l, a, k), Member(l, b, k))
  {
    hide Sound, PointerOk, Merge;
    if k >= l.strings + l.nested {
      var j := k - l.strings - l.nested;
      assert r.nums[j] == if j + l.strings + l.nested in b.has then b.nums[j] else a.nums[j];
    }
  }

  /** The first `k` strings are cleared, the others as they were. */
  ghost predicate ClearedUpto(ss: seq<bytes>, start: seq<bytes>, k: nat) {
    |ss| == |start| && forall j | 0 <= j < |ss| :: ss[j] == if j < k then [] else start[j]
  }

  /** The strings below `k` and the has-bits below `k` are merged. */
  ghost predicate MergedUpto(h: word, ss: seq<bytes>, h0: word, ss0: seq<bytes>, fh: word, fs: seq<bytes>, k: nat) {
    && |ss| == |ss0| == |fs|
    && (forall j | 0 <= j < |ss| :: ss[j] == if j < k && j in fh then fs[j] else ss0[j])
    && (forall j :: j in h <==> j in h0 || (j < k && j in fh))
  }

  /** The numbers behind the has-bits below `k` are merged; the block starts at bit `base`. */
  ghost predicate NumbersUpto(base: nat, ns: seq<int>, ns0: seq<int>, fh: word, fn: seq<int>, k: nat) {
    && |ns| == |ns0| == |fn|
    && forall j | 0 <= j < |ns| :: ns[j] == if base + j < k && base + j in fh then fn[j] else ns0[j]
  }

  /** A nested pointer's bit, between the strings and the numbers. */
  lemma MarkNested(h: word, ss: seq<bytes>, h0: word, ss0: seq<bytes>, fh: word, fs: seq<bytes>, k: nat)
    requires MergedUpto(h, ss, h0, ss0, fh, fs, k) && |ss| <= k
    ensures MergedUpto(if k in fh then h + {k} else h, ss, h0, ss0, fh, fs, k + 1)
  {
  }

  /** A group whose guard is off has nothing to merge. */
  lemma SkipStrings(h: word, ss: seq<bytes>, h0: word, ss0: seq<bytes>, fh: word, fs: seq<bytes>, lo: nat, hi: nat)
    requires lo <= hi && MergedUpto(h, ss, h0, ss0, fh, fs, lo) && forall j | lo <= j < hi :: j !in fh
    ensures MergedUpto(h, ss, h0, ss0, fh, fs, hi)
  {
  }

  lemma SkipNumbers(base: nat, ns: seq<int>, ns0: seq<int>, fh: word, fn: seq<int>, lo: nat, hi: nat)
    requires lo <= hi && NumbersUpto(base, ns, ns0, fh, fn, lo) && forall j | lo <= j < hi :: j !in fh
    ensures NumbersUpto(base, ns, ns0, fh, fn, hi)
  {
  }

  lemma SkipSubs(l: Layout, ps: seq<Pointee>, ps0: seq<Pointee>, fh: word, fp: seq<Pointee>, lo: nat, hi: nat)
    requires lo <= hi && SubsUpto(l, ps, ps0, fh, fp, lo) && forall k | lo <= k < hi :: k !in fh
    ensures SubsUpto(l, ps, ps0, fh, fp, hi)
  {
    hide Sound, KindOf;
  }

  /** Nothing merged yet. */
  lemma MergeStart(l: Layout, a: Store, b: Store)
    requires Invariant(l, a) && Invariant(l, b)
    ensures MergedUpto(a.has, a.strs, a.has, a.strs, b.has, b.strs, 0)
    ensures NumbersUpto(l.strings + l.nested, a.nums, a.nums, b.has, b.nums, l.strings + l.nested)
    ensures SubsUpto(l, a.subs, a.subs, b.has, b.subs, l.strings)
  {
  }

  /** The unknown fields are free of the class invariant. */
  lemma UnknownFree(l: Layout, st: Store, u: seq<Record>)
    requires Invariant(l, st)
    ensures Invariant(l, st.(unknown := u))
  {
  }

  lemma BitsBelow(l: Layout, st: Store)
    requires Invariant(l, st)
    ensures forall k | k in st.has :: k < |l.bitOf|
  {
  }

  lemma NoBits(l: Layout, st: Store)
    requires Invariant(l, st) && forall k | 0 <= k < |l.bitOf| :: k !in st.has
    ensures st.has == {}
  {
  }

  lemma MergeEnd(l: Layout, a: Store, b: Store, r: Store, h: word, k: nat)
    requires Invariant(l, a) && Invariant(l, b) && l.strings <= k
    requires MergedUpto(h, r.strs, a.has, a.strs, b.has, b.strs, k)
    requires NumbersUpto(l.strings + l.nested, r.nums, a.nums, b.has, b.nums, |l.bitOf|)
    requires r.has == a.has + b.has && r.unknown == a.unknown + b.unknown
    requires SubsUpto(l, r.subs, a.subs, b.has, b.subs, l.strings + l.nested)
    ensures Invariant(l, r) && ValueOf(l, r) == Merge(ValueOf(l, a), ValueOf(l, b))
  {
    hide PointerOk, Merge;
    assert IsMerge(l, a, b, r);
    MergeKeeps(l, a, b, r);
  }

  lemma MergeBits(h: word, ss: seq<bytes>, h0: word, ss0: seq<bytes>, fh: word, fs: seq<bytes>, k: nat)
    requires MergedUpto(h, ss, h0, ss0, fh, fs, k)
    ensures h + fh == h0 + fh
    ensures (forall j | j in fh :: j < k) ==> h == h0 + fh
  {
  }

  // ------------------------------------------------------------ the switch

  /** How the switch classifies a tag: by field number and by the low tag byte. */
  predicate CaseMatches(l: Layout, tag: nat) {
    1 <= tag / 8 <= |l.tagOf| && tag % 256 == l.tagOf[tag / 8 - 1]
  }

  /** Tags of fields up to 15 fit a byte, so the low byte decides the wire type. */
  lemma LowByte(tag: nat, number: nat, wireType: nat)
    requires number <= 15 && wireType < 8 && tag / 8 == number
    ensures tag % 256 == MakeTag(number, wireType) <==> tag % 8 == wireType
  {
    assert tag < 128;
  }

  lemma TagKnown(l: Layout, tag: nat)
    requires Sound(l)
    ensures CaseMatches(l, tag) <==> Knows(l.schema, tag)
    ensures CaseMatches(l, tag) ==> Find(l.schema.fields, tag / 8) == tag / 8 - 1
                                    && tag % 8 == WireType(l.schema.fields[tag / 8 - 1].kind)
  {
    hide MakeTag, KindAt, S.Consecutive;
    S.FindConsecutive(l.schema, tag / 8);
    if 1 <= tag / 8 <= |l.tagOf| {
      var i := tag / 8 - 1;
      LowByte(tag, tag / 8, WireType(l.schema.fields[i].kind));
      NotRepeated(l, i);
    }
  }

  lemma NotRepeated(l: Layout, i: nat)
    requires Sound(l) && i < |l.bitOf|
    ensures !l.schema.fields[i].kind.Repeated?
  {
    assert KindAt(l, l.bitOf[i], l.schema.fields[i].kind);
  }

  // ------------------------------------------------------------------ size

  /** What member `k` counts for: nothing when its bit is clear. */
  ghost function Len(l: Layout, st: Store, k: nat): (n: nat)
    requires Shaped(l, st) && k < |l.bitOf|
    ensures k !in st.has ==> n == 0
  {
    SlotSize(l.schema.fields[l.fieldOf[k]], Member(l, st, k))
  }

  /** The bytes of the members `lo` up to `hi`. */
  ghost function LenSum(l: Layout, st: Store, lo: nat, hi: nat): (n: nat)
    requires Shaped(l, st) && lo <= hi <= |l.bitOf|
  {
    if lo == hi then 0 else LenSum(l, st, lo, hi - 1) + Len(l, st, hi - 1)
  }

  lemma LenSumOne(l: Layout, st: Store, k: nat)
    requires Shaped(l, st) && k < |l.bitOf|
    ensures LenSum(l, st, k, k + 1) == Len(l, st, k)
  {
    hide Sound, Len;
    assert LenSum(l, st, k, k) == 0;
  }

  /** A group whose has-bits are all clear takes no bytes. */
  lemma {:induction false} LenSumClear(l: Layout, st: Store, lo: nat, hi: nat)
    requires Shaped(l, st) && lo <= hi <= |l.bitOf| && forall k | lo <= k < hi :: k !in st.has
    ensures LenSum(l, st, lo, hi) == 0
  {
    hide Sound, SlotSize;
    if lo < hi {
      LenSumClear(l, st, lo, hi - 1);
    }
  }

  lemma {:induction false} LenSumJoin(l: Layout, st: Store, lo: nat, mid: nat, hi: nat)
    requires Shaped(l, st) && lo <= mid <= hi <= |l.bitOf|
    ensures LenSum(l, st, lo, hi) == LenSum(l, st, lo, mid) + LenSum(l, st, mid, hi)
    decreases hi
  {
    hide Sound, Len;
    if mid < hi {
      LenSumJoin(l, st, lo, mid, hi - 1);
    }
  }

  /** The bytes of the members in a set of has-bits, below `n`. */
  ghost function SetSum(l: Layout, st: Store, ks: set<nat>, n: nat): (r: nat)
    requires Shaped(l, st) && n <= |l.bitOf|
  {
    if n == 0 then 0 else SetSum(l, st, ks, n - 1) + if n - 1 in ks then Len(l, st, n - 1) else 0
  }

  lemma {:induction false} SetSumAdd(l: Layout, st: Store, ks: set<nat>, k: nat, n: nat)
    requires Shaped(l, st) && n <= |l.bitOf| && k !in ks
    ensures SetSum(l, st, ks + {k}, n) == SetSum(l, st, ks, n) + if k < n then Len(l, st, k) else 0
    decreases n
  {
    hide Sound, Len;
    if n > 0 {
      SetSumAdd(l, st, ks, k, n - 1);
    }
  }

  lemma {:induction false} SetSumAll(l: Layout, st: Store, ks: set<nat>, n: nat)
    requires Shaped(l, st) && n <= |l.bitOf| && forall k | 0 <= k < n :: k in ks
    ensures SetSum(l, st, ks, n) == LenSum(l, st, 0, n)
  {
    hide Sound, Len;
    if n > 0 {
      SetSumAll(l, st, ks, n - 1);
    }
  }

  lemma {:induction false} SetSumNone(l: Layout, st: Store, n: nat)
    requires Shaped(l, st) && n <= |l.bitOf|
    ensures SetSum(l, st, {}, n) == 0
  {
    hide Sound, Len;
    if n > 0 {
      SetSumNone(l, st, n - 1);
    }
  }

  /** The has-bits of the fields from index `i` on. */
  ghost function BitsOfFields(l: Layout, i: nat): (ks: set<nat>)
    requires i <= |l.bitOf|
  {
    set j | i <= j < |l.bitOf| :: l.bitOf[j]
  }

  lemma BitsOfFieldsStep(l: Layout, i: nat)
    requires Sound(l) && i < |l.bitOf|
    ensures l.fieldOf[l.bitOf[i]] == i
    ensures l.bitOf[i] !in BitsOfFields(l, i + 1)
    ensures BitsOfFields(l, i) == BitsOfFields(l, i + 1) + {l.bitOf[i]}
  {
    forall j | i + 1 <= j < |l.bitOf| ensures l.bitOf[j] != l.bitOf[i] { assert l.fieldOf[l.bitOf[j]] == j; }
  }

  lemma {:induction false} LengthFrom(l: Layout, st: Store, i: nat)
    requires Shaped(l, st) && i <= |l.bitOf|
    ensures SizeFrom(l.schema, ValueOf(l, st), i)
         == SetSum(l, st, BitsOfFields(l, i), |l.bitOf|) + |EncodeRecords(st.unknown)|
    decreases |l.bitOf| - i
  {
    hide SetSum, SizeFrom, SlotSize, EncodeRecords, Sound;
    var n, m := |l.bitOf|, ValueOf(l, st);
    FieldCount(l);
    if i == n {
      SizeEnd(l.schema, m);
      assert BitsOfFields(l, i) == {};
      SetSumNone(l, st, n);
    } else {
      LengthFrom(l, st, i + 1);
      SizeStep(l.schema, m, i);
      BitsOfFieldsStep(l, i);
      FieldOfBit(l, i);
      SetSumAdd(l, st, BitsOfFields(l, i + 1), l.bitOf[i], n);
    }
  }

  lemma FieldCount(l: Layout)
    requires Sound(l)
    ensures |l.schema.fields| == |l.bitOf| == |l.fieldOf| == |l.tagOf|
  {
  }

  lemma FieldOfBit(l: Layout, i: nat)
    requires Sound(l) && i < |l.bitOf|
    ensures l.bitOf[i] < |l.bitOf| == |l.fieldOf| && l.fieldOf[l.bitOf[i]] == i
  {
  }

  /** The size of the message, field by field, is the sum over the members in has-bit order. */
  lemma TotalLength(l: Layout, st: Store)
    requires Shaped(l, st)
    ensures ByteSize(l.schema, ValueOf(l, st)) == LenSum(l, st, 0, |l.bitOf|) + |EncodeRecords(st.unknown)|
  {
    LengthFrom(l, st, 0);
    forall k | 0 <= k < |l.bitOf| ensures k in BitsOfFields(l, 0) { assert l.bitOf[l.fieldOf[k]] == k; }
    SetSumAll(l, st, BitsOfFields(l, 0), |l.bitOf|);
  }

  lemma StringLen(l: Layout, st: Store, k: nat)
    requires Shaped(l, st) && k < l.strings
    ensures Len(l, st, k) == if k in st.has then 1 + DelimitedSize(|st.strs[k]|) else 0
  {
    assert KindOf(l, k).Bytes?;
    ShortTag(l.fieldOf[k] + 1, 2);
  }

  lemma NestedLen(l: Layout, st: Store, k: nat)
    requires Invariant(l, st) && l.strings <= k < l.strings + l.nested
    ensures Len(l, st, k)
         == if k in st.has
            then 1 + DelimitedSize(ByteSize(SubSchema(l, k - l.strings), st.subs[k - l.strings].msg)) else 0
  {
    hide ByteSize, DelimitedSize, Conforms;
    var j := k - l.strings;
    assert PointerOk(SubSchema(l, j), l.strings + j in st.has, st.subs[j]);
    assert KindOf(l, k).Message?;
    ShortTag(l.fieldOf[k] + 1, 2);
  }

  /** No member counts for more than the whole message. */
  lemma LenWithin(l: Layout, st: Store, k: nat)
    requires Shaped(l, st) && k < |l.bitOf|
    ensures Len(l, st, k) <= ByteSize(l.schema, ValueOf(l, st))
  {
    hide ByteSize, Len, Sound, ValueOf;
    TotalLength(l, st);
    LenSumJoin(l, st, 0, k, |l.bitOf|);
    LenSumJoin(l, st, k, k + 1, |l.bitOf|);
    LenSumOne(l, st, k);
  }

  /** A nested message counts for less than the message it is part of. */
  lemma NestedWithin(l: Layout, st: Store, k: nat)
    requires Invariant(l, st) && l.strings <= k < l.strings + l.nested && k in st.has
    ensures st.subs[k - l.strings].To?
    ensures ByteSize(SubSchema(l, k - l.strings), st.subs[k - l.strings].msg) < ByteSize(l.schema, ValueOf(l, st))
  {
    hide ByteSize, Len, Sound, ValueOf;
    Bounds(l, st);
    NestedLen(l, st, k);
    LenWithin(l, st, k);
    assert l.strings + (k - l.strings) == k;
  }

  lemma NumberLen(l: Layout, st: Store, k: nat)
    requires Invariant(l, st) && l.strings + l.nested <= k < |l.bitOf|
    ensures Len(l, st, k)
         == if k in st.has then 1 + NumberSize(KindOf(l, k).w, st.nums[k - l.strings - l.nested]) else 0
  {
    hide VarintSize, EncodeVarint, NumberSize, EncodeTag;
    assert KindOf(l, k).Scalar?;
    var j := k - l.strings - l.nested;
    assert InRange(KindOf(l, j + l.strings + l.nested).w, st.nums[j]);
    NumberSizeIsExact(KindOf(l, k).w, st.nums[j]);
    ShortTag(l.fieldOf[k] + 1, 0);
  }

  // ----------------------------------------------------------- serializing

  /** What has been written so far and the fields from `i` on make up the goal. */
  ghost predicate Written(l: Layout, out: bytes, m: Msg, i: nat, goal: bytes) {
    out + EmitFrom(l.schema, m, i) == goal
  }

  lemma WroteNothing(l: Layout, out: bytes, m: Msg, goal: bytes)
    requires goal == out + Emit(l.schema, m)
    ensures Written(l, out, m, 0, goal)
  {
  }

  /** The bytes of the field with index `i`. */
  ghost function FieldBytes(l: Layout, st: Store, i: nat): (r: bytes)
    requires Shaped(l, st) && i < |l.bitOf|
  {
    EmitSlot(l.schema.fields[i], Member(l, st, l.bitOf[i]))
  }

  lemma FieldBytesForm(l: Layout, st: Store, i: nat)
    requires Invariant(l, st) && i < |l.bitOf|
    ensures var k := l.bitOf[i];
            && k < |l.bitOf|
            && FieldBytes(l, st, i)
               == if k !in st.has then []
                  else if k < l.strings then EncodeTag(i + 1, 2) + EmitDelimited(st.strs[k])
                  else if k < l.strings + l.nested then
                    EncodeTag(i + 1, 2)
                    + EmitDelimited(Emit(SubSchema(l, k - l.strings), st.subs[k - l.strings].msg))
                  else EncodeTag(i + 1, 0) + EncodeVarint(ToWire(st.nums[k - l.strings - l.nested]))
  {
    hide Emit, Conforms, EncodeTag, EmitDelimited, EncodeVarint;
    assert KindAt(l, l.bitOf[i], l.schema.fields[i].kind);
    assert l.fieldOf[l.bitOf[i]] == i;
    var j := l.bitOf[i] - l.strings;
    if 0 <= j < l.nested { assert PointerOk(SubSchema(l, j), l.strings + j in st.has, st.subs[j]); }
  }

  lemma WroteField(l: Layout, st: Store, i: nat, before: bytes, after: bytes, goal: bytes)
    requires Invariant(l, st) && i < |l.bitOf| && Written(l, before, ValueOf(l, st), i, goal)
    requires after == before + FieldBytes(l, st, i)
    ensures Written(l, after, ValueOf(l, st), i + 1, goal)
  {
    EmitStep(l.schema, ValueOf(l, st), i, before, after, goal);
  }

  lemma WroteAll(l: Layout, st: Store, before: bytes, goal: bytes)
    requires Invariant(l, st) && Written(l, before, ValueOf(l, st), |l.bitOf|, goal)
    ensures before + EncodeRecords(st.unknown) == goal
  {
    EmitEnd(l.schema, ValueOf(l, st));
  }
}

/**
  RepeatedPtrField of msg_p2p_recv.  Clearing the list keeps its objects, cleared,
  and adding reuses them, so the objects beyond the current size must be
  indistinguishable from new ones.
 */
module MsgListClass {
  import opened Wire
  import opened Message
  import opened Failing
  import opened Members
  import opened MergeLaws
  import opened MsgP2pRecvClass
  import opened Sizing
  import opened Streams
  import opened Writing
  import S = Schemas

  /** No object is shared between elements. */
  ghost predicate Separate(es: seq<MsgP2pRecv>)
    reads es
  {
    forall i, j | 0 <= i < |es| && 0 <= j < |es| && i != j :: es[i].Apart(es[j])
  }

  lemma SeparateSnoc(es: seq<MsgP2pRecv>, e: MsgP2pRecv)
    requires Separate(es) && e !in es && e.below == {} && e.leaves == {}
    ensures Separate(es + [e])
  {
  }

  /** An element within the footprint, in this state. */
  ghost predicate InState(e: MsgP2pRecv, st: Store, repr: set<object>)
    reads repr
  {
    e in repr && e.below <= repr && e.leaves <= repr && e.Linked() && e.Snap() == st
  }

  ghost predicate AllInvariant(sts: seq<Store>) {
    forall i | 0 <= i < |sts| :: Invariant(Shape(), sts[i])
  }

  /** The messages that the states stand for. */
  ghost function Messages(sts: seq<Store>): (ms: seq<Msg>)
    ensures |ms| == |sts| && forall i | 0 <= i < |sts| :: ms[i] == MessageOf(sts[i])
  {
    seq(|sts|, i requires 0 <= i < |sts| => MessageOf(sts[i]))
  }

  /** The first `i` of the other states stand behind the first `n` of the start states. */
  ghost predicate Appended(sts: seq<Store>, theirs: seq<Store>, n: nat, i: nat, start: seq<Store>) {
    && i <= |theirs| && n + i <= |sts| && n <= |start|
    && (forall j | 0 <= j < n :: sts[j] == start[j])
    && (forall j | 0 <= j < i :: MessageOf(sts[n + j]) == MessageOf(theirs[j]))
  }

  lemma AppendStart(sts: seq<Store>, theirs: seq<Store>, n: nat)
    requires n <= |sts|
    ensures Appended(sts, theirs, n, 0, sts)
  {
  }

  lemma AppendStep(was: seq<Store>, sts: seq<Store>, theirs: seq<Store>, n: nat, i: nat, start: seq<Store>)
    requires Appended(was, theirs, n, i, start) && i < |theirs| && n + i < |was| == |sts|
    requires forall j | 0 <= j < |sts| && j != n + i :: sts[j] == was[j]
    requires MessageOf(sts[n + i]) == MessageOf(theirs[i])
    ensures Appended(sts, theirs, n, i + 1, start)
  {
    hide MessageOf;
  }

  lemma AppendGrow(was: seq<Store>, sts: seq<Store>, theirs: seq<Store>, n: nat, i: nat, start: seq<Store>)
    requires Appended(was, theirs, n, i, start) && was <= sts
    ensures Appended(sts, theirs, n, i, start)
  {
    hide MessageOf;
  }

  lemma AppendEnd(sts: seq<Store>, theirs: seq<Store>, n: nat, i: nat, start: seq<Store>)
    requires Appended(sts, theirs, n, i, start)
    ensures n + i <= |sts| && i <= |theirs| && n <= |start|
    ensures Messages(sts)[..n + i] == Messages(start)[..n] + Messages(theirs)[..i]
  {
    hide MessageOf;
    var a, b := Messages(sts)[..n + i], Messages(start)[..n] + Messages(theirs)[..i];
    forall k | n <= k < n + i ensures a[k] == b[k] {
      var j := k - n;
      assert MessageOf(sts[n + j]) == MessageOf(theirs[j]);
    }
  }

  lemma MessagesSnoc(was: seq<Store>, now: seq<Store>, n: nat)
    requires was <= now && n <= |was| && n < |now|
    ensures Messages(now)[..n + 1] == Messages(was)[..n] + [MessageOf(now[n])]
  {
    hide MessageOf;
  }

  lemma LastChanged(was: seq<Store>, now: seq<Store>, n: nat)
    requires 0 < n <= |was| == |now| && forall j | 0 <= j < |was| && j != n - 1 :: now[j] == was[j]
    ensures Messages(now)[..n][..n - 1] == Messages(was)[..n][..n - 1]
    ensures Messages(now)[..n][n - 1] == MessageOf(now[n - 1]) && Messages(was)[..n][n - 1] == MessageOf(was[n - 1])
  {
    hide MessageOf;
  }

  class MsgList {
    /** All allocated elements; the first `size` are in the list. */
    var elements: seq<MsgP2pRecv>
    var size: nat
    ghost var states: seq<Store>
    ghost var repr: set<object>

    /** The invariant, with the elements from `n` on cleared. */
    ghost predicate ValidAt(n: nat)
      reads this`elements, this`states, this`repr, repr
    {
      && this !in repr && n <= |elements| == |states|
      && (forall i | 0 <= i < |elements| :: InState(elements[i], states[i], repr))
      && Separate(elements) && AllInvariant(states)
      && (forall i | n <= i < |states| :: IsFresh(Shape(), states[i]))
    }

    ghost predicate Valid()
      reads this, repr
    {
      size <= |elements| && ValidAt(size)
    }

    /** The messages in the list. */
    ghost function Items(): (ms: seq<Msg>)
      reads this`states, this`size
    {
      if size <= |states| then Messages(states)[..size] else []
    }

    lemma ItemsConform()
      requires Valid()
      ensures |Items()| == size && forall m | m in Items() :: Conforms(S.MsgP2pRecv, m)
    {
      hide Conforms, ValueOf;
      forall i | 0 <= i < size ensures Conforms(S.MsgP2pRecv, Items()[i]) { ValueConforms(Shape(), states[i]); }
    }

    lemma Within(n: nat)
      requires ValidAt(n)
      ensures n <= |elements| == |states| && this !in repr
    {
    }

    /** What an element of the list is good for. */
    lemma ElementAt(n: nat, i: nat)
      requires ValidAt(n) && i < |elements|
      ensures |elements| == |states| && InState(elements[i], states[i], repr)
      ensures elements[i].Valid() && elements[i].Value() == MessageOf(states[i])
    {
      hide MsgP2pRecv.Linked, Shape, Invariant, MessageOf;
    }

    constructor ()
      ensures Valid() && Items() == [] && repr == {}
    {
      elements, size, states, repr := [], 0, [], {};
    }

    /** One more allocated element, beyond the first `n`. */
    method Grow(ghost n: nat) returns (e: MsgP2pRecv)
      requires ValidAt(n)
      modifies `elements, `states, `repr
      ensures ValidAt(n) && elements == old(elements) + [e] && fresh(e) && e.below == {} && e.leaves == {}
      ensures states == old(states) + [e.Snap()] && repr == old(repr) + {e}
    {
      hide Shape, Invariant, MessageOf, IsFresh, Sound, MsgP2pRecv.Linked, MsgP2pRecv.Value, Separate;
      e := new MsgP2pRecv();
      SeparateSnoc(elements, e);
      elements := elements + [e];
      states := states + [e.Snap()];
      repr := repr + {e};
    }

    /** Add: a cleared element is reused if there is one, and holds the default message either way. */
    method Add() returns (e: MsgP2pRecv)
      requires Valid()
      modifies this
      ensures Valid() && Items() == old(Items()) + [Empty(S.MsgP2pRecv)]
      ensures size == old(size) + 1 && e == elements[old(size)] && fresh(repr - old(repr))
    {
      hide Shape, Invariant, MessageOf, Messages, IsFresh, Separate, InState, AllInvariant;
      if size < |elements| {
        e := elements[size];
      } else {
        e := Grow(size);
      }
      FreshValue(states[size]);
      MessagesSnoc(old(states), states, size);
      size := size + 1;
    }

    /** Records the new state of element `i`, the only one that was touched. */
    ghost method Note(i: nat, n: nat)
      requires this !in repr && i < |elements| == |states| && n <= |states|
      requires elements[i] in repr && elements[i].Valid() && Separate(elements) && AllInvariant(states)
      requires forall j | 0 <= j < |elements| && j != i :: InState(elements[j], states[j], repr)
      requires forall j | n <= j < |states| && j != i :: IsFresh(Shape(), states[j])
      requires n <= i ==> IsFresh(Shape(), elements[i].Snap())
      modifies `states, `repr
      ensures ValidAt(n) && states == old(states)[i := elements[i].Snap()]
      ensures repr == old(repr) + elements[i].below + elements[i].leaves
    {
      hide Shape, Invariant, IsFresh, Separate, MsgP2pRecv.Linked;
      states := states[i := elements[i].Snap()];
      repr := repr + elements[i].below + elements[i].leaves;
    }

    method ClearAt(i: nat)
      requires Valid() && i < |elements|
      modifies `states, `repr, elements[i], elements[i].below, elements[i].leaves
      ensures Valid() && repr == old(repr) && |states| == |old(states)| && IsFresh(Shape(), states[i])
      ensures forall j | 0 <= j < |states| && j != i :: states[j] == old(states)[j]
    {
      hide Shape, Invariant, MessageOf, IsFresh, MsgP2pRecv.Linked;
      elements[i].Clear();
      Note(i, size);
    }

    /** Clear: every element of the list is cleared and kept. */
    method Clear()
      requires Valid()
      modifies this, repr
      ensures Valid() && Items() == [] && repr == old(repr) && elements == old(elements)
    {
      hide Shape, Invariant, MessageOf, IsFresh, Separate, MsgP2pRecv.Linked;
      var n := size;
      var i := 0;
      while i < n
        invariant i <= n <= |elements| && elements == old(elements) && size == n && repr == old(repr)
        invariant Valid() && forall j | 0 <= j < i :: IsFresh(Shape(), states[j])
      {
        ClearAt(i);
        i := i + 1;
      }
      size := 0;
    }

    /** Merging into a cleared element makes it equal to the source element. */
    method MergeAt(i: nat, from: MsgP2pRecv)
      requires ValidAt(i) && i < |elements| && from.Valid()
      requires from !in repr && from.below !! repr && from.leaves !! repr
      modifies `states, `repr, elements[i], elements[i].below, elements[i].leaves
      ensures ValidAt(i + 1) && fresh(repr - old(repr)) && |states| == |old(states)|
      ensures forall j | 0 <= j < |states| && j != i :: states[j] == old(states)[j]
      ensures MessageOf(states[i]) == old(from.Value())
    {
      hide Shape, Invariant, MessageOf, IsFresh, MsgP2pRecv.Linked, Merge;
      ElementAt(i, i);
      FreshValue(states[i]);
      from.ValueOk();
      MergeLeftIdentity(S.MsgP2pRecv, from.Value());
      elements[i].MergeFrom(from);
      Note(i, i + 1);
    }

    /** The two lists share no object. */
    ghost predicate Apart(from: MsgList)
      reads this, from
    {
      from != this && repr !! from.repr && this !in from.repr && from !in repr
    }

    method MergeNext(from: MsgList, i: nat, ghost start: seq<Store>)
      requires ValidAt(size + i) && from.Valid() && Apart(from) && i < from.size && size + i < |elements|
      requires Appended(states, from.states, size, i, start)
      modifies `states, `repr, elements[size + i], elements[size + i].below, elements[size + i].leaves
      ensures ValidAt(size + i + 1) && from.Valid() && Apart(from) && fresh(repr - old(repr))
      ensures |states| == |old(states)| && Appended(states, from.states, size, i + 1, start)
    {
      hide Shape, Invariant, MessageOf, IsFresh, Separate, Appended, MsgP2pRecv.Linked;
      ElementAt(size + i, size + i);
      from.ElementAt(from.size, i);
      MergeAt(size + i, from.elements[i]);
      AppendStep(old(states), states, from.states, size, i, start);
    }

    /** The loop over the kept elements. */
    method MergeKept(from: MsgList) returns (i: nat)
      requires Valid() && from.Valid() && Apart(from)
      modifies `states, `repr, repr
      ensures size == old(size) && ValidAt(size + i) && from.Valid() && Apart(from) && fresh(repr - old(repr))
      ensures i <= from.size && (i < from.size ==> |elements| == size + i)
      ensures Appended(states, from.states, size, i, old(states))
    {
      hide Shape, Invariant, MessageOf, IsFresh, Separate, MsgP2pRecv.Linked, Appended;
      i := 0;
      var kept := |elements| - size;
      AppendStart(states, from.states, size);
      while i < kept && i < from.size
        invariant i <= from.size && i <= kept && |elements| == size + kept
        invariant ValidAt(size + i) && from.Valid() && Apart(from) && fresh(repr - old(repr))
        invariant Appended(states, from.states, size, i, old(states))
      {
        ElementAt(size + i, size + i);
        MergeNext(from, i, old(states));
        i := i + 1;
      }
    }

    /** One more element, allocated and then merged into. */
    method MergeNew(from: MsgList, i: nat, ghost start: seq<Store>)
      requires ValidAt(size + i) && from.Valid() && Apart(from) && i < from.size && |elements| == size + i
      requires Appended(states, from.states, size, i, start)
      modifies `elements, `states, `repr
      ensures ValidAt(size + i + 1) && from.Valid() && Apart(from) && fresh(repr - old(repr))
      ensures |elements| == size + i + 1 && Appended(states, from.states, size, i + 1, start)
    {
      hide Shape, Invariant, MessageOf, IsFresh, Separate, MsgP2pRecv.Linked, Appended;
      ghost var before := states;
      var _ := Grow(size + i);
      AppendGrow(before, states, from.states, size, i, start);
      MergeNext(from, i, start);
    }

    /** MergeFrom: kept elements are reused first, then new ones are allocated. */
    method MergeFrom(from: MsgList)
      requires Valid() && from.Valid() && Apart(from)
      modifies this, repr
      ensures Valid() && from.Valid() && Apart(from) && fresh(repr - old(repr))
      ensures Items() == old(Items()) + from.Items()
    {
      hide ValidAt, Messages, Appended;
      ghost var start := states;
      var i := MergeKept(from);
      while i < from.size
        invariant i <= from.size && size == old(size) && (i < from.size ==> |elements| == size + i)
        invariant ValidAt(size + i) && from.Valid() && Apart(from) && fresh(repr - old(repr))
        invariant Appended(states, from.states, size, i, start)
      {
        MergeNew(from, i, start);
        i := i + 1;
      }
      AppendEnd(states, from.states, size, i, start);
      Within(size + i);
      size := size + i;
    }

    /** ReadMessage(input, Add()): the element starts out as the default message. */
    method AddRead(input: CodedInputStream) returns (ok: bool)
      requires Valid() && input.Valid() && 0 <= input.budget && input !in repr
      modifies this, repr, input`pos, input`limit, input`budget, input`legitimateEnd
      ensures Valid() && input.Valid() && fresh(repr - old(repr))
      ensures ok ==> input.limit == old(input.limit) && input.budget == old(input.budget)
      ensures |Items()| == |old(Items())| + 1 && Items()[..|old(Items())|] == old(Items())
      ensures ReadNested(S.MsgP2pRecv, old(input.budget), Empty(S.MsgP2pRecv), old(input.Rest()))
              == if ok then Got(Items()[|old(Items())|], input.Rest()) else Bad
      ensures LeavesNested(S.MsgP2pRecv, old(input.budget), Empty(S.MsgP2pRecv), old(input.Rest()),
                           Items()[|old(Items())|])
    {
      hide Shape, MessageOf, ValidAt, MsgP2pRecv.Linked, ReadNested, LeavesNested, Messages;
      var _ := Add();
      ElementAt(size, size - 1);
      ghost var was := states;
      ok := ReadAt(size - 1, input);
      LastChanged(was, states, size);
    }

    method ReadAt(i: nat, input: CodedInputStream) returns (ok: bool)
      requires Valid() && i < size && input.Valid() && 0 <= input.budget && input !in repr
      modifies `states, `repr, elements[i], elements[i].below, elements[i].leaves
      modifies input`pos, input`limit, input`budget, input`legitimateEnd
      ensures Valid() && input.Valid() && fresh(repr - old(repr)) && |states| == |old(states)|
      ensures ok ==> input.limit == old(input.limit) && input.budget == old(input.budget)
      ensures forall j | 0 <= j < |states| && j != i :: states[j] == old(states)[j]
      ensures ReadNested(S.MsgP2pRecv, old(input.budget), old(MessageOf(states[i])), old(input.Rest()))
              == if ok then Got(MessageOf(states[i]), input.Rest()) else Bad
      ensures LeavesNested(S.MsgP2pRecv, old(input.budget), old(MessageOf(states[i])), old(input.Rest()),
                           MessageOf(states[i]))
    {
      hide Shape, Invariant, MessageOf, IsFresh, ReadNested, LeavesNested, MsgP2pRecv.Linked;
      ElementAt(size, i);
      ok := ReadP2pRecv(input, elements[i]);
      Note(i, size);
    }

    // ---------------------------------------------------------- cached sizes

    /** What element `i` counts for. */
    ghost function Length(i: nat): (n: nat)
      requires i < |states|
      reads this`states
    {
      ByteSize(S.MsgP2pRecv, MessageOf(states[i]))
    }

    /** The cached sizes of element `i` and below it are what ByteSizeLong leaves. */
    ghost predicate Cached(i: nat)
      requires Valid() && i < size
      reads this, repr
    {
      elements[i].CacheFilled() && elements[i].CachesFilled()
    }

    method SizeAt(i: nat, e: MsgP2pRecv) returns (n: nat)
      requires Valid() && i < size && e == elements[i]
      modifies e`cachedSize, e.below`cachedSize, e.leaves`cachedSize
      ensures Valid() && n == Length(i) && Cached(i)
      ensures forall j | 0 <= j < size && j != i :: old(Cached(j)) ==> Cached(j)
    {
      hide Shape, Invariant, MessageOf, IsFresh, Serialize, Emit, ByteSize, MsgP2pRecv.Linked;
      ElementAt(size, i);
      n := e.ByteSizeLong();
    }
  }

  lemma FreshValue(st: Store)
    requires IsFresh(Shape(), st)
    ensures MessageOf(st) == Empty(S.MsgP2pRecv)
  {
    hide Shape, Sound, Invariant, ValueOf, IsFresh;
    FreshInvariant(Shape(), st);
    Bounds(Shape(), st);
  }
}

/**
  A leaf of the message tree: TEXT_CONTENT or one of its siblings, which hold no
  further messages.  Its fields are kept as a message value; what its parent relies
  on is the object, its value and its own cached size.
 */
module Nested {
  import opened Wire
  import opened Unknown
  import opened Message
  import opened Failing
  import opened MergeLaws
  import opened Sizing
  import opened Streams
  import opened Writing

  class SubMessage {
    const schema: Schema
    var val: Msg
    var cachedSize: int

    ghost predicate Valid()
      reads this`val
    {
      Conforms(schema, val)
    }

    /** The cached size is what ByteSizeLong leaves. */
    ghost predicate CacheFilled()
      reads this`val, this`cachedSize
    {
      cachedSize == ToCachedSize(ByteSize(schema, val))
    }

    /** The cached size is the length of the encoding. */
    ghost predicate CacheExact()
      reads this`val, this`cachedSize
    {
      cachedSize == |Serialize(schema, val)| < TWO_31
    }

    constructor (schema: Schema)
      ensures this.schema == schema && Valid() && val == Empty(schema)
    {
      this.schema, val, cachedSize := schema, Empty(schema), 0;
      new;
      EmptyConforms(schema);
    }

    method Clear()
      modifies this`val
      ensures Valid() && val == Empty(schema)
    {
      val := Empty(schema);
      EmptyConforms(schema);
    }

    method MergeFrom(from: SubMessage)
      requires Valid() && from.Valid() && from != this && from.schema == schema
      modifies this`val
      ensures Valid() && val == Merge(old(val), from.val)
    {
      MergeConforms(schema, val, from.val);
      val := Merge(val, from.val);
    }

    method MergePartialFromCodedStream(input: CodedInputStream) returns (ok: bool)
      requires Valid() && input.Valid() && 0 <= input.budget
      modifies this`val, input`pos, input`legitimateEnd
      ensures Valid() && input.Valid() && Leaves(schema, input.budget, old(val), old(input.Rest()), val)
      ensures match Parse(schema, input.budget, old(val), old(input.Rest()))
              case Complete(m) => ok && val == m && input.Rest() == [] && input.legitimateEnd
              case Stopped(m) => ok && val == m && !input.legitimateEnd
              case Failed => !ok
    {
      hide Parse, Leaves;
      var bytes := input.data[input.pos..input.limit];
      var outcome := Parse(schema, input.budget, val, bytes);
      val := Remains(schema, input.budget, val, bytes);
      LeavesConforms(schema, input.budget, old(val), bytes, val);
      if outcome.Failed? {
        return false;
      }
      LeavesResult(schema, input.budget, old(val), bytes, val);
      if outcome.Complete? {
        input.pos := input.limit;
      }
      input.legitimateEnd := outcome.Complete?;
      return true;
    }

    method IsInitialized() returns (r: bool)
      ensures r <==> Initialized(schema, val)
    {
      r := Initialized(schema, val);
    }

    method ByteSizeLong() returns (total: nat)
      modifies this`cachedSize
      ensures total == ByteSize(schema, val) == |Emit(schema, val)| && CacheFilled()
      ensures total < TWO_31 ==> CacheExact()
    {
      EmitLength(schema, val);
      if ByteSize(schema, val) < TWO_31 { SmallIsExact(schema, val); }
      total := ByteSize(schema, val);
      cachedSize := ToCachedSize(total);
    }

    method SerializeWithCachedSizes(out: bytes) returns (r: bytes)
      ensures r == out + Emit(schema, val)
    {
      r := out + Emit(schema, val);
    }
  }

  /** A nested message is written behind its cached size. */
  method WriteMessage(number: nat, value: SubMessage, out: bytes) returns (r: bytes)
    requires value.CacheFilled()
    ensures r == out + (EncodeTag(number, 2) + EmitDelimited(Emit(value.schema, value.val)))
  {
    hide Emit, ByteSize, EncodeTag, EncodeVarint;
    EmitLength(value.schema, value.val);
    CachedPrefix(ByteSize(value.schema, value.val));
    r := out + EncodeTag(number, 2) + EncodeVarint(value.cachedSize % TWO_32);
    r := value.SerializeWithCachedSizes(r);
  }

  /** ReadMessage: the length, a recursion step, the nested parse, and the check that it ended at the limit. */
  method ReadMessage(input: CodedInputStream, value: SubMessage) returns (ok: bool)
    requires value.Valid() && input.Valid() && 0 <= input.budget
    modifies value`val, input`pos, input`limit, input`budget, input`legitimateEnd
    ensures value.Valid() && input.Valid()
    ensures ok ==> input.limit == old(input.limit) && input.budget == old(input.budget)
    ensures ReadNested(value.schema, old(input.budget), old(value.val), old(input.Rest()))
            == if ok then Got(value.val, input.Rest()) else Bad
    ensures LeavesNested(value.schema, old(input.budget), old(value.val), old(input.Rest()), value.val)
  {
    hide Parse, Leaves, ReadSize;
    var begun, enclosing := input.OpenMessage();
    if !begun {
      return false;
    }
    ok := value.MergePartialFromCodedStream(input);
    if !ok {
      return false;
    }
    ok := input.DecrementRecursionDepthAndPopLimit(enclosing);
  }
}

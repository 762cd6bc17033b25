/**
  Messages as values.  A schema lists the fields of a generated class in field
  number order; a message holds one slot per field, plus the unknown fields.
  Parse, Serialize and Merge are the meaning of MergePartialFromCodedStream,
  SerializeWithCachedSizes and MergeFrom for every schema at once.
 */
module Message {
  import opened Wire
  import opened Unknown

  // ---------------------------------------------------------------- schemas

  datatype Width = U32 | U64 | I32

  datatype Kind =
    | Scalar(w: Width)
    | Double
    | Bytes
    | Message(schema: Schema)
    | Repeated(w: Width)
    | RepeatedMessage(schema: Schema)

  datatype Field = Field(number: nat, kind: Kind, required: bool)

  datatype Schema = Schema(fields: seq<Field>)

  /** Field numbers are legal and strictly ascending, here and in every nested schema. */
  predicate WellFormed(s: Schema)
    decreases s
  {
    && (forall i | 0 <= i < |s.fields| :: 1 <= s.fields[i].number <= MAX_FIELD_NUMBER)
    && (forall i, j | 0 <= i < j < |s.fields| :: s.fields[i].number < s.fields[j].number)
    && (forall i | 0 <= i < |s.fields| :: WellFormedKind(s.fields[i].kind))
  }

  predicate WellFormedKind(k: Kind)
    decreases k
  {
    match k
    case Message(s) => WellFormed(s)
    case RepeatedMessage(s) => WellFormed(s)
    case _ => true
  }

  function WireType(k: Kind): (t: nat)
    ensures t < 3
  {
    match k
    case Scalar(_) => 0
    case Repeated(_) => 0
    case Double => 1
    case _ => 2
  }

  /** A repeated number is also read from its packed form. */
  predicate Accepts(k: Kind, wireType: nat) {
    wireType == WireType(k) || (k.Repeated? && wireType == 2)
  }

  /** The index of the field with this number, or the number of fields. */
  function Find(fields: seq<Field>, number: nat): (i: nat)
    ensures i <= |fields|
    ensures i < |fields| ==> fields[i].number == number
    ensures forall j | 0 <= j < i :: fields[j].number != number
  {
    if fields == [] || fields[0].number == number then 0 else 1 + Find(fields[1..], number)
  }

  predicate Knows(s: Schema, tag: nat) {
    var i := Find(s.fields, tag / 8);
    i < |s.fields| && Accepts(s.fields[i].kind, tag % 8)
  }

  /** The slot a record with this tag goes to; one past the last slot for unknown records. */
  function SlotOfTag(s: Schema, tag: nat): (i: nat)
    ensures i <= |s.fields|
  {
    if Knows(s, tag) then Find(s.fields, tag / 8) else |s.fields|
  }

  // --------------------------------------------------------------- messages

  datatype Value =
    | Absent
    | Num(n: int)
    | Raw(data: bytes)
    | Sub(msg: Msg)
    | Nums(ns: seq<int>)
    | Subs(msgs: seq<Msg>)

  datatype Msg = Msg(slots: seq<Value>, unknown: seq<Record>)

  function Default(k: Kind): (v: Value) {
    match k
    case Repeated(_) => Nums([])
    case RepeatedMessage(_) => Subs([])
    case _ => Absent
  }

  /** The message a constructor makes and Clear returns to. */
  function Empty(s: Schema): (m: Msg)
    ensures |m.slots| == |s.fields|
    ensures forall i | 0 <= i < |s.fields| :: m.slots[i] == Default(s.fields[i].kind)
  {
    Msg(seq(|s.fields|, i requires 0 <= i < |s.fields| => Default(s.fields[i].kind)), [])
  }

  predicate InRange(w: Width, n: int) {
    match w
    case U32 => 0 <= n < TWO_32
    case U64 => 0 <= n < TWO_64
    case I32 => -0x8000_0000 <= n < 0x8000_0000
  }

  /** Reading truncates to the field's width; int32 reinterprets the sign bit. */
  function FromWire(w: Width, v: nat): (n: int)
    ensures v < TWO_64 ==> InRange(w, n)
  {
    match w
    case U64 => v
    case U32 => v % TWO_32
    case I32 => if v % TWO_32 < TWO_31 then v % TWO_32 else v % TWO_32 - TWO_32
  }

  /** Writing sign-extends a negative int32 to 64 bits. */
  function ToWire(n: int): (v: nat)
    ensures v < TWO_64
  {
    n % TWO_64
  }

  // ---------------------------------------------------------------- parsing

  /** What the enclosing limit leaves of a declared length: the shorter limit wins. */
  function Clamp(bs: bytes, n: nat): (r: bytes)
    ensures |r| == if n <= |bs| then n else |bs|
  {
    if n <= |bs| then bs[..n] else bs
  }

  /** Complete: the loop ended at the end of its input.  Stopped: it met a zero or
      unreadable tag, so the loop returns true but the input is not consumed. */
  datatype Outcome = Complete(msg: Msg) | Stopped(msg: Msg) | Failed

  datatype Packed = Run(ns: seq<int>) | Broken

  function ReadPacked(w: Width, bs: bytes): (r: Packed)
    decreases |bs|
  {
    if bs == [] then Run([])
    else match ReadVarint64(bs)
      case Bad => Broken
      case Got(v, rest) =>
        match ReadPacked(w, rest)
        case Broken => Broken
        case Run(ns) => Run([FromWire(w, v)] + ns)
  }

  function Existing(v: Value, s: Schema): Msg { if v.Sub? then v.msg else Empty(s) }
  function NumberOf(v: Value): int { if v.Num? then v.n else 0 }
  function NumsOf(v: Value): seq<int> { if v.Nums? then v.ns else [] }
  function SubsOf(v: Value): seq<Msg> { if v.Subs? then v.msgs else [] }

  /** Reads one field value, after its tag, on top of the value the slot holds. */
  function ReadValue(k: Kind, depth: nat, cur: Value, wireType: nat, bs: bytes): (r: Read<Value>)
    ensures r.Got? ==> |r.rest| < |bs|
    decreases |bs|, 1
  {
    match k
    case Scalar(w) =>
      (match ReadVarint64(bs) case Bad => Bad case Got(v, rest) => Got(Num(FromWire(w, v)), rest))
    case Double =>
      (match Take(bs, 8) case Bad => Bad case Got(b, rest) => Got(Raw(b), rest))
    case Bytes =>
      (match ReadDelimited(bs) case Bad => Bad case Got(b, rest) => Got(Raw(b), rest))
    case Repeated(w) =>
      if wireType == 0 then
        (match ReadVarint64(bs) case Bad => Bad
         case Got(v, rest) => Got(Nums(NumsOf(cur) + [FromWire(w, v)]), rest))
      else
        (match ReadSize(bs) case Bad => Bad
         case Got(n, rest) =>
           var run := Clamp(rest, n);
           match ReadPacked(w, run) case Broken => Bad
           case Run(ns) => Got(Nums(NumsOf(cur) + ns), rest[|run|..]))
    case Message(s) =>
      (match ReadNested(s, depth, Existing(cur, s), bs) case Bad => Bad
       case Got(m, rest) => Got(Sub(m), rest))
    case RepeatedMessage(s) =>
      (match ReadNested(s, depth, Empty(s), bs) case Bad => Bad
       case Got(m, rest) => Got(Subs(SubsOf(cur) + [m]), rest))
  }

  /** Only a parse that ended at its limit counts as a whole message. */
  function Finish(o: Outcome, rest: bytes): Read<Msg> {
    if o.Complete? then Got(o.msg, rest) else Bad
  }

  /** ReadMessage: a length, a recursion step, and a parse that must end at the pushed limit. */
  function ReadNested(s: Schema, depth: nat, m: Msg, bs: bytes): (r: Read<Msg>)
    ensures r.Got? ==> |r.rest| < |bs|
    decreases |bs|, 0
  {
    match ReadSize(bs)
    case Bad => Bad
    case Got(n, rest) =>
      if depth == 0 then Bad
      else
        var body := Clamp(rest, n);
        Finish(Parse(s, depth - 1, m, body), rest[|body|..])
  }

  function Put(m: Msg, i: nat, v: Value): (r: Msg)
    requires i < |m.slots|
  {
    m.(slots := m.slots[i := v])
  }

  /** One turn of the tag-dispatch loop, after the tag has been read. */
  function ReadField(s: Schema, depth: nat, m: Msg, tag: nat, bs: bytes): (r: Read<Msg>)
    ensures r.Got? ==> |r.rest| < |bs|
    decreases |bs|, 2
  {
    var i := Find(s.fields, tag / 8);
    if Knows(s, tag) && i < |m.slots| then
      match ReadValue(s.fields[i].kind, depth, m.slots[i], tag % 8, bs)
      case Bad => Bad
      case Got(v, rest) => Got(Put(m, i, v), rest)
    else
      match SkipField(tag, bs, depth)
      case Bad => Bad
      case Got(p, rest) => Got(m.(unknown := m.unknown + [Record(tag / 8, p)]), rest)
  }

  /** MergePartialFromCodedStream: parses `bs` into the message `m`. */
  function Parse(s: Schema, depth: nat, m: Msg, bs: bytes): (r: Outcome)
    decreases |bs|, 3
  {
    if bs == [] then Complete(m)
    else match ReadVarint32(bs)
      case Bad => Stopped(m)
      case Got(tag, rest) =>
        if tag == 0 then Stopped(m)
        else match ReadField(s, depth, m, tag, rest)
          case Bad => Failed
          case Got(m', rest') => Parse(s, depth, m', rest')
  }

  // ------------------------------------------------------------ serializing

  function EncodeNums(number: nat, ns: seq<int>): (r: bytes) {
    if ns == [] then [] else EncodeTag(number, 0) + EncodeVarint(ToWire(ns[0])) + EncodeNums(number, ns[1..])
  }

  function EncodeSubs(number: nat, s: Schema, ms: seq<Msg>): (r: bytes)
    decreases ms, 0
  {
    if ms == [] then []
    else EncodeTag(number, 2) + EncodeDelimited(Serialize(s, ms[0])) + EncodeSubs(number, s, ms[1..])
  }

  function EncodeSlot(f: Field, v: Value): (r: bytes)
    decreases v, 0
  {
    match (f.kind, v)
    case (Scalar(_), Num(n)) => EncodeTag(f.number, 0) + EncodeVarint(ToWire(n))
    case (Double, Raw(b)) => EncodeTag(f.number, 1) + b
    case (Bytes, Raw(b)) => EncodeTag(f.number, 2) + EncodeDelimited(b)
    case (Message(s), Sub(m)) => EncodeTag(f.number, 2) + EncodeDelimited(Serialize(s, m))
    case (Repeated(_), Nums(ns)) => EncodeNums(f.number, ns)
    case (RepeatedMessage(s), Subs(ms)) => EncodeSubs(f.number, s, ms)
    case _ => []
  }

  /** The serializer from field index `i` on: known fields in number order, then the unknown ones. */
  function SerializeFrom(s: Schema, m: Msg, i: nat): (r: bytes)
    decreases m, 0, |m.slots| - i
  {
    if i < |s.fields| && i < |m.slots| then EncodeSlot(s.fields[i], m.slots[i]) + SerializeFrom(s, m, i + 1)
    else EncodeRecords(m.unknown)
  }

  function Serialize(s: Schema, m: Msg): (r: bytes)
    decreases m, 1
  {
    SerializeFrom(s, m, 0)
  }

  // ---------------------------------------------------------------- merging

  /** Merging one field: last one wins, submessages merge, repeated fields concatenate. */
  function MergeValue(a: Value, b: Value): (r: Value)
    decreases b, 0
  {
    match (a, b)
    case (Sub(m), Sub(n)) => Sub(Merge(m, n))
    case (Nums(m), Nums(n)) => Nums(m + n)
    case (Subs(m), Subs(n)) => Subs(m + n)
    case (_, Absent) => a
    case _ => b
  }

  function Merge(a: Msg, b: Msg): (r: Msg)
    decreases b, 1
  {
    Msg(seq(|b.slots|, i requires 0 <= i < |b.slots| =>
              if i < |a.slots| then MergeValue(a.slots[i], b.slots[i]) else b.slots[i]),
        a.unknown + b.unknown)
  }

  // ------------------------------------------------------------- invariants

  /** The shape of a message of this schema. */
  predicate Conforms(s: Schema, m: Msg)
    decreases m, 1
  {
    |m.slots| == |s.fields| && forall i | 0 <= i < |m.slots| :: ConformsValue(s.fields[i].kind, m.slots[i])
  }

  predicate ConformsValue(k: Kind, v: Value)
    decreases v, 0
  {
    match k
    case Scalar(_) => v.Absent? || v.Num?
    case Double => v.Absent? || v.Raw?
    case Bytes => v.Absent? || v.Raw?
    case Message(s) => v.Absent? || (v.Sub? && Conforms(s, v.msg))
    case Repeated(_) => v.Nums?
    case RepeatedMessage(s) => v.Subs? && forall m | m in v.msgs :: Conforms(s, m)
  }

  /** The messages the C++ objects can hold: values in range, unknown fields that the
      schema does not know, and nesting within the recursion budget. */
  predicate Valid(s: Schema, depth: nat, m: Msg)
    decreases m, 1
  {
    && |m.slots| == |s.fields|
    && (forall i | 0 <= i < |m.slots| :: ValidValue(s.fields[i].kind, depth, m.slots[i]))
    && ValidRecords(m.unknown, depth)
    && (forall r | r in m.unknown :: !Knows(s, MakeTag(r.number, WireTypeOf(r.payload))))
  }

  predicate ValidValue(k: Kind, depth: nat, v: Value)
    decreases v, 0
  {
    match k
    case Scalar(w) => v.Absent? || (v.Num? && InRange(w, v.n))
    case Double => v.Absent? || (v.Raw? && |v.data| == 8)
    case Bytes => v.Absent? || (v.Raw? && |v.data| < TWO_31)
    case Message(s) => v.Absent? || (v.Sub? && depth > 0 && Valid(s, depth - 1, v.msg))
    case Repeated(w) => v.Nums? && forall n | n in v.ns :: InRange(w, n)
    case RepeatedMessage(s) => v.Subs? && forall m | m in v.msgs :: depth > 0 && Valid(s, depth - 1, m)
  }

  // --------------------------------------------------------- initialization

  /** IsInitialized: every required field is present, here and in every nested message. */
  predicate Initialized(s: Schema, m: Msg)
    decreases m, 1
  {
    |m.slots| == |s.fields| && forall i | 0 <= i < |m.slots| :: InitializedField(s.fields[i], m.slots[i])
  }

  predicate InitializedField(f: Field, v: Value)
    decreases v, 0
  {
    && (f.required ==> !v.Absent?)
    && match f.kind
       case Message(s) => v.Sub? ==> Initialized(s, v.msg)
       case RepeatedMessage(s) => v.Subs? ==> forall m | m in v.msgs :: Initialized(s, m)
       case _ => true
  }
}

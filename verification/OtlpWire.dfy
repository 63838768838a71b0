/** The OTLP messages which are needed for logs, as they go over the wire: the field numbers of the OTLP definition, and the
    wire format of Protocol Buffers. The decoder is a definition of its own: it knows nothing of the converter. */
module OtlpWire {
  import opened Bytes

  const UINT64_SPAN: int := 0x1_0000_0000_0000_0000
  const INT64_LIMIT: int := 0x8000_0000_0000_0000
  const INT32_LIMIT: int := 0x8000_0000

  type uint64 = n: int | 0 <= n < 0x1_0000_0000_0000_0000
  type int64 = n: int | -0x8000_0000_0000_0000 <= n < 0x8000_0000_0000_0000

  datatype Kind = Request | ResourceLogs | Resource | ScopeLogs | Scope | LogRecord | KeyValue | AnyValue

  /** What a field holds: a string, a flag, numbers as varint or as eight bytes, or one or any number of messages. */
  datatype Shape = TextShape | FlagShape | Int64Shape | Int32Shape | TimeShape | DoubleShape | One(kind: Kind) | Many(kind: Kind)

  datatype FieldSpec = FieldSpec(name: string, number: nat, shape: Shape)

  /** The fields of a message in the order of their numbers, with their names in OTLP/JSON. */
  function Schema(kind: Kind): (specs: seq<FieldSpec>)
    ensures forall i :: 0 <= i < |specs| ==> 0 < specs[i].number < 16
    ensures forall i, j :: 0 <= i < j < |specs| ==> specs[i].number < specs[j].number
  {
    match kind
    case Request => [FieldSpec("resourceLogs", 1, Many(ResourceLogs))]
    case ResourceLogs => [FieldSpec("resource", 1, One(Resource)), FieldSpec("scopeLogs", 2, Many(ScopeLogs))]
    case Resource => [FieldSpec("attributes", 1, Many(KeyValue))]
    case ScopeLogs => [FieldSpec("scope", 1, One(Scope)), FieldSpec("logRecords", 2, Many(LogRecord))]
    case Scope => [FieldSpec("name", 1, TextShape), FieldSpec("version", 2, TextShape)]
    case LogRecord => [FieldSpec("timeUnixNano", 1, TimeShape), FieldSpec("severityNumber", 2, Int32Shape),
                       FieldSpec("severityText", 3, TextShape), FieldSpec("body", 5, One(AnyValue)),
                       FieldSpec("attributes", 6, Many(KeyValue)), FieldSpec("observedTimeUnixNano", 11, TimeShape)]
    case KeyValue => [FieldSpec("key", 1, TextShape), FieldSpec("value", 2, One(AnyValue))]
    case AnyValue => [FieldSpec("stringValue", 1, TextShape), FieldSpec("boolValue", 2, FlagShape),
                      FieldSpec("intValue", 3, Int64Shape), FieldSpec("doubleValue", 4, DoubleShape)]
  }

  /** The values of a message, one for each field which is there, in their order. A double is the 64 bits of it. */
  datatype Value = TextValue(text: bytes) | FlagValue(flag: bool) | IntValue(number: int64) | FixedValue(bits: uint64)
                 | MessageValue(fields: seq<Field>)

  datatype Field = Field(number: nat, value: Value)

  function ShapeOf(kind: Kind, number: nat): Option<Shape> {
    ShapeIn(Schema(kind), number)
  }

  function ShapeIn(specs: seq<FieldSpec>, number: nat): Option<Shape> {
    if specs == [] then None else if specs[0].number == number then Some(specs[0].shape) else ShapeIn(specs[1..], number)
  }

  /** A message of this kind: every field has a number of the kind, and a value of its shape. */
  predicate IsMessage(kind: Kind, fields: seq<Field>)
    decreases fields
  {
    forall i :: 0 <= i < |fields| ==> IsField(kind, fields[i])
  }

  predicate IsField(kind: Kind, f: Field)
    decreases f
  {
    ShapeOf(kind, f.number).Some? && HasShape(ShapeOf(kind, f.number).value, f.value)
  }

  predicate HasShape(shape: Shape, v: Value)
    decreases v
  {
    match shape
    case TextShape => v.TextValue?
    case FlagShape => v.FlagValue?
    case Int64Shape => v.IntValue?
    case Int32Shape => v.IntValue? && -INT32_LIMIT <= v.number < INT32_LIMIT
    case TimeShape | DoubleShape => v.FixedValue?
    case One(k) => v.MessageValue? && IsMessage(k, v.fields)
    case Many(k) => v.MessageValue? && IsMessage(k, v.fields)
  }

  /* --- Writing --- */

  function Varint(n: nat): (b: bytes)
    ensures b != []
  {
    if n < 128 then [n] else [n % 128 + 128] + Varint(n / 128)
  }

  /** Two's complement in 64 bits. */
  function Unsigned(n: int64): uint64 {
    if n < 0 then n + UINT64_SPAN else n
  }

  function WireType(v: Value): nat {
    match v
    case FlagValue(_) | IntValue(_) => 0
    case FixedValue(_) => 1
    case TextValue(_) | MessageValue(_) => 2
  }

  function Payload(v: Value): bytes
    decreases v, 1
  {
    match v
    case TextValue(text) => Varint(|text|) + text
    case FlagValue(flag) => Varint(if flag then 1 else 0)
    case IntValue(n) => Varint(Unsigned(n))
    case FixedValue(bits) => LittleEndian(bits, 8)
    case MessageValue(fields) => Varint(|Encode(fields)|) + Encode(fields)
  }

  function EncodeField(f: Field): bytes
    decreases f, 0
  {
    Varint(f.number * 8 + WireType(f.value)) + Payload(f.value)
  }

  function Encode(fields: seq<Field>): bytes
    decreases fields, 0
  {
    if fields == [] then [] else EncodeField(fields[0]) + Encode(fields[1..])
  }

  /** The examples of the description of the wire format: 150 in field 1, the text "testing" in field 2, and that message in
      field 3. And a number with eight bytes, the lowest one first. */
  lemma NumberExample()
    ensures Encode([Field(1, IntValue(150))]) == [0x08, 0x96, 0x01]
  {
    assert Payload(IntValue(150)) == [0x96, 0x01];
  }

  lemma TextExample()
    ensures Encode([Field(2, TextValue([116, 101, 115, 116, 105, 110, 103]))]) == [0x12, 0x07, 116, 101, 115, 116, 105, 110, 103]
  {
    assert Payload(TextValue([116, 101, 115, 116, 105, 110, 103])) == [0x07] + [116, 101, 115, 116, 105, 110, 103];
  }

  lemma MessageExample()
    ensures Encode([Field(3, MessageValue([Field(1, IntValue(150))]))]) == [0x1A, 0x03, 0x08, 0x96, 0x01]
  {
    NumberExample();
    assert Payload(MessageValue([Field(1, IntValue(150))])) == [0x03] + [0x08, 0x96, 0x01];
  }

  lemma FixedExample()
    ensures Encode([Field(1, FixedValue(258))]) == [0x09, 2, 1, 0, 0, 0, 0, 0, 0]
  {
    hide LittleEndian;
    LowestFirst();
    assert Payload(FixedValue(258)) == [2, 1, 0, 0, 0, 0, 0, 0];
    assert Encode([Field(1, FixedValue(258))]) == EncodeField(Field(1, FixedValue(258))) + [];
  }

  lemma LowestFirst()
    ensures LittleEndian(258, 8) == [2, 1, 0, 0, 0, 0, 0, 0]
  {
    NextByte(0, 1);
    NextByte(0, 2);
    NextByte(0, 3);
    NextByte(0, 4);
    NextByte(0, 5);
    NextByte(0, 6);
    NextByte(1, 7);
    NextByte(258, 8);
  }

  lemma NextByte(n: nat, k: nat)
    requires 0 < k
    ensures LittleEndian(n, k) == [n % 256] + LittleEndian(n / 256, k - 1)
  {
  }

  lemma {:induction false} EncodeConcat(a: seq<Field>, b: seq<Field>)
    ensures Encode(a + b) == Encode(a) + Encode(b)
  {
    if a == [] {
      assert a + b == b;
    } else {
      assert (a + b)[1..] == a[1..] + b;
      EncodeConcat(a[1..], b);
      assert EncodeField(a[0]) + (Encode(a[1..]) + Encode(b)) == EncodeField(a[0]) + Encode(a[1..]) + Encode(b);
    }
  }

  /* --- Reading --- */

  datatype Parsed<T> = Parsed(value: T, rest: bytes) | Malformed

  /** At most k bytes, the lowest seven bits first. */
  function ReadVarint(s: bytes, k: nat): (p: Parsed<nat>)
    ensures p.Parsed? ==> |p.rest| < |s|
  {
    if k == 0 || s == [] then Malformed
    else if s[0] < 128 then Parsed(s[0], s[1..])
    else match ReadVarint(s[1..], k - 1)
      case Malformed => Malformed
      case Parsed(n, rest) => Parsed(s[0] - 128 + 128 * n, rest)
  }

  function ReadNumber(s: bytes): (p: Parsed<uint64>)
    ensures p.Parsed? ==> |p.rest| < |s|
  {
    match ReadVarint(s, 10)
    case Malformed => Malformed
    case Parsed(n, rest) => if n < UINT64_SPAN then Parsed(n, rest) else Malformed
  }

  function ReadBytes(s: bytes): (p: Parsed<bytes>)
    ensures p.Parsed? ==> |p.rest| + |p.value| < |s|
  {
    match ReadNumber(s)
    case Malformed => Malformed
    case Parsed(n, rest) => if n <= |rest| then Parsed(rest[..n], rest[n..]) else Malformed
  }

  function Signed(n: uint64): int64 {
    if n < INT64_LIMIT then n else n - UINT64_SPAN
  }

  function WireTypeOf(shape: Shape): nat {
    match shape
    case FlagShape | Int64Shape | Int32Shape => 0
    case TimeShape | DoubleShape => 1
    case TextShape | One(_) | Many(_) => 2
  }

  function ReadValue(shape: Shape, s: bytes): (p: Parsed<Value>)
    ensures p.Parsed? ==> |p.rest| < |s|
    decreases |s|, 1
  {
    match shape
    case TextShape => (match ReadBytes(s) case Malformed => Malformed case Parsed(text, rest) => Parsed(TextValue(text), rest))
    case FlagShape => (match ReadNumber(s) case Malformed => Malformed case Parsed(n, rest) => Parsed(FlagValue(n != 0), rest))
    case Int64Shape => (match ReadNumber(s) case Malformed => Malformed case Parsed(n, rest) => Parsed(IntValue(Signed(n)), rest))
    case Int32Shape =>
      (match ReadNumber(s)
       case Malformed => Malformed
       case Parsed(n, rest) => if -INT32_LIMIT <= Signed(n) < INT32_LIMIT then Parsed(IntValue(Signed(n)), rest) else Malformed)
    case TimeShape => ReadFixed(s)
    case DoubleShape => ReadFixed(s)
    case One(kind) => ReadMessage(kind, s)
    case Many(kind) => ReadMessage(kind, s)
  }

  function ReadFixed(s: bytes): (p: Parsed<Value>)
    ensures p.Parsed? ==> |p.rest| < |s|
  {
    if |s| < 8 || FromLittleEndian(s[..8]) >= UINT64_SPAN then Malformed else Parsed(FixedValue(FromLittleEndian(s[..8])), s[8..])
  }

  function ReadMessage(kind: Kind, s: bytes): (p: Parsed<Value>)
    ensures p.Parsed? ==> |p.rest| < |s|
    decreases |s|, 0
  {
    match ReadBytes(s)
    case Malformed => Malformed
    case Parsed(b, rest) =>
      match Decode(kind, b)
      case None => Malformed
      case Some(fields) => Parsed(MessageValue(fields), rest)
  }

  /** The fields of a message of this kind, None if the bytes are no such message. */
  function Decode(kind: Kind, s: bytes): Option<seq<Field>>
    decreases |s|, 2
  {
    if s == [] then Some([]) else
    match ReadNumber(s)
    case Malformed => None
    case Parsed(tag, rest) =>
      match ShapeOf(kind, tag / 8)
      case None => None
      case Some(shape) =>
        if tag % 8 != WireTypeOf(shape) then None else
        match ReadValue(shape, rest)
        case Malformed => None
        case Parsed(v, behind) =>
          match Decode(kind, behind)
          case None => None
          case Some(fields) => Some([Field(tag / 8, v)] + fields)
  }

  /* --- Reading undoes writing --- */

  lemma {:induction false} ReadWrittenVarint(n: nat, t: bytes, k: nat)
    requires 0 < k && n < Power128(k)
    ensures ReadVarint(Varint(n) + t, k) == Parsed(n, t)
  {
    var s := Varint(n) + t;
    if n < 128 {
      assert s[1..] == t;
    } else {
      ReadWrittenVarint(n / 128, t, k - 1);
      assert s[1..] == Varint(n / 128) + t;
    }
  }

  function Power128(k: nat): nat {
    if k == 0 then 1 else 128 * Power128(k - 1)
  }

  lemma ReadWrittenNumber(n: uint64, t: bytes)
    ensures ReadNumber(Varint(n) + t) == Parsed(n, t)
  {
    assert Power128(10) > UINT64_SPAN by {
      assert Power128(4) == 268435456;
      assert Power128(7) == 268435456 * 2097152;
      assert Power128(10) == 268435456 * 2097152 * 2097152;
    }
    ReadWrittenVarint(n, t, 10);
  }

  lemma ReadWrittenBytes(b: bytes, t: bytes)
    requires |b| < UINT64_SPAN
    ensures ReadBytes(Varint(|b|) + b + t) == Parsed(b, t)
  {
    hide Varint, ReadNumber;
    FrontAndRest(b, t);
    assert Varint(|b|) + b + t == Varint(|b|) + (b + t);
    ReadWrittenNumber(|b|, b + t);
  }

  lemma FrontAndRest(b: bytes, t: bytes)
    ensures (b + t)[..|b|] == b && (b + t)[|b|..] == t && |b| <= |b + t|
  {
  }

  lemma ReadWrittenFixed(n: uint64, t: bytes)
    ensures ReadFixed(LittleEndian(n, 8) + t) == Parsed(FixedValue(n), t)
  {
    SpanValues();
    LittleEndianRoundTrip(n, 8);
    var s := LittleEndian(n, 8) + t;
    assert s[..8] == LittleEndian(n, 8) && s[8..] == t;
  }

  lemma {:induction false} ReadWrittenValue(shape: Shape, v: Value, t: bytes)
    requires HasShape(shape, v) && |Payload(v)| < UINT64_SPAN
    ensures ReadValue(shape, Payload(v) + t) == Parsed(v, t)
    decreases v, 1
  {
    hide ReadNumber, ReadBytes, ReadFixed, Varint, LittleEndian, Decode, Schema, ShapeIn;
    match shape
    case TextShape => ReadWrittenBytes(v.text, t);
    case FlagShape => ReadWrittenNumber(if v.flag then 1 else 0, t);
    case Int64Shape => ReadWrittenNumber(Unsigned(v.number), t);
    case Int32Shape => ReadWrittenNumber(Unsigned(v.number), t);
    case TimeShape => ReadWrittenFixed(v.bits, t);
    case DoubleShape => ReadWrittenFixed(v.bits, t);
    case One(kind) =>
      ReadWrittenBytes(Encode(v.fields), t);
      DecodeOfEncode(kind, v.fields);
    case Many(kind) =>
      ReadWrittenBytes(Encode(v.fields), t);
      DecodeOfEncode(kind, v.fields);
  }

  /** A decoder gets every field of a message back: all numbers, all values, in their order, at every depth. */
  lemma {:induction false} DecodeOfEncode(kind: Kind, fields: seq<Field>)
    requires IsMessage(kind, fields) && |Encode(fields)| < UINT64_SPAN
    ensures Decode(kind, Encode(fields)) == Some(fields)
    decreases fields, 0
  {
    hide EncodeField, IsField, Decode;
    if fields != [] {
      DecodeOfEncode(kind, fields[1..]);
      DecodeField(kind, fields[0], Encode(fields[1..]), fields[1..]);
      assert fields == [fields[0]] + fields[1..];
    } else {
      DecodeNothing(kind);
    }
  }

  lemma DecodeNothing(kind: Kind)
    ensures Decode(kind, []) == Some([])
  {
  }

  lemma {:induction false} DecodeField(kind: Kind, f: Field, rest: bytes, fields: seq<Field>)
    requires IsField(kind, f) && |EncodeField(f)| < UINT64_SPAN && Decode(kind, rest) == Some(fields)
    ensures Decode(kind, EncodeField(f) + rest) == Some([f] + fields)
    decreases f, 2
  {
    hide ReadNumber, ReadValue, Varint, Payload, Schema, ShapeIn, HasShape;
    var shape := ShapeOf(kind, f.number).value;
    ShapeNumbers(kind, f.number);
    ShapeWireType(shape, f.value);
    var tag := f.number * 8 + WireType(f.value);
    assert EncodeField(f) + rest == Varint(tag) + (Payload(f.value) + rest);
    ReadWrittenNumber(tag, Payload(f.value) + rest);
    ReadWrittenValue(shape, f.value, rest);
  }

  lemma ShapeNumbers(kind: Kind, number: nat)
    ensures ShapeOf(kind, number).Some? ==> number < 16
  {
    ShapeInNumbers(Schema(kind), number);
  }

  lemma ShapeInNumbers(specs: seq<FieldSpec>, number: nat)
    requires forall i :: 0 <= i < |specs| ==> specs[i].number < 16
    ensures ShapeIn(specs, number).Some? ==> number < 16
  {
    if specs != [] {
      ShapeInNumbers(specs[1..], number);
    }
  }

  lemma ShapeWireType(shape: Shape, v: Value)
    requires HasShape(shape, v)
    ensures WireType(v) == WireTypeOf(shape) < 8
  {
  }
}

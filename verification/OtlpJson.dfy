/** OTLP/JSON: which message a JSON tree says. The names and shapes are those of the schema, every member which is there becomes
    a field, and anything which is not known is refused. */
module OtlpJson {
  import opened Bytes
  import opened OtlpWire
  import StateFile

  type whole = n: int | -0x8000_0000_0000_0000 <= n < 0x1_0000_0000_0000_0000

  /** A JSON tree. A number is the 64 bits of its value as a double, and what it is as an integer, if it was written as one which
      fits into 64 bits. */
  datatype Json = Null | Bool(flag: bool) | Number(exact: Option<whole>, bits: uint64) | Text(text: bytes)
                | Array(items: seq<Json>) | Object(members: seq<Member>)

  datatype Member = Member(name: string, value: Json)

  const ZERO_CHAR: char := '\0'

  /** A name as strcmp sees it: up to the first zero byte. */
  function UpToNul(s: string): (r: string)
    ensures r <= s && ZERO_CHAR !in r && (ZERO_CHAR !in s ==> r == s)
  {
    if s == [] || s[0] == ZERO_CHAR then [] else [s[0]] + UpToNul(s[1..])
  }

  /** The first member of this name, |members| if there is none. */
  function IndexOf(members: seq<Member>, name: string): (i: nat)
    ensures i <= |members|
    ensures i < |members| ==> members[i].name == name
    ensures forall j :: 0 <= j < i ==> members[j].name != name
  {
    if members == [] || members[0].name == name then 0 else 1 + IndexOf(members[1..], name)
  }

  predicate IsKnown(specs: seq<FieldSpec>, name: string) {
    exists i :: 0 <= i < |specs| && UpToNul(name) == specs[i].name
  }

  predicate OnlyKnown(kind: Kind, json: Json) {
    json.Object? && forall i :: 0 <= i < |json.members| ==> IsKnown(Schema(kind), json.members[i].name)
  }

  /* --- Numbers --- */

  const MINUS: byte := 45

  /** A number, or the decimal text of one. */
  function GetUint64(v: Json): Option<uint64> {
    match v
    case Number(Some(n), _) => if n >= 0 then Some(n) else None
    case Text(t) => StateFile.Number(t)
    case _ => None
  }

  function GetInt64(v: Json): Option<int64> {
    match v
    case Number(Some(n), _) => if n < INT64_LIMIT then Some(n) else None
    case Text(t) => SignedText(t)
    case _ => None
  }

  function SignedText(t: bytes): Option<int64> {
    if t != [] && t[0] == MINUS then
      match StateFile.Number(t[1..])
      case None => None
      case Some(n) => if n <= INT64_LIMIT then Some(0 - (n as int)) else None
    else
      match StateFile.Number(t)
      case None => None
      case Some(n) => if n < INT64_LIMIT then Some(n) else None
  }

  /* --- Messages --- */

  function Then(a: Option<seq<Field>>, b: Option<seq<Field>>): Option<seq<Field>> {
    if a.Some? && b.Some? then Some(a.value + b.value) else None
  }

  function Single(number: nat, v: Option<Value>): Option<seq<Field>> {
    if v.Some? then Some([Field(number, v.value)]) else None
  }

  function Scalar(shape: Shape, v: Json): Option<Value> {
    match shape
    case TextShape => if v.Text? then Some(TextValue(v.text)) else None
    case FlagShape => if v.Bool? then Some(FlagValue(v.flag)) else None
    case Int64Shape => (match GetInt64(v) case Some(n) => Some(IntValue(n)) case None => None)
    case Int32Shape =>
      if v.Number? && v.exact.Some? && -INT32_LIMIT <= v.exact.value < INT32_LIMIT then Some(IntValue(v.exact.value)) else None
    case TimeShape => (match GetUint64(v) case Some(n) => Some(FixedValue(n)) case None => None)
    case DoubleShape => if v.Number? then Some(FixedValue(v.bits)) else None
    case _ => None
  }

  /** The fields of a member. */
  function MemberFields(spec: FieldSpec, v: Json): Option<seq<Field>>
    decreases v, 3
  {
    match spec.shape
    case One(kind) => Single(spec.number, MessageOf(kind, v))
    case Many(kind) => if v.Array? then ItemFields(kind, spec.number, v.items) else None
    case _ => Single(spec.number, Scalar(spec.shape, v))
  }

  function ItemFields(kind: Kind, number: nat, items: seq<Json>): Option<seq<Field>>
    decreases items, 3
  {
    if items == [] then Some([]) else
    Then(ItemFields(kind, number, items[..|items| - 1]), Single(number, MessageOf(kind, items[|items| - 1])))
  }

  function MessageOf(kind: Kind, v: Json): Option<Value>
    decreases v, 2
  {
    match FromJson(kind, v)
    case None => None
    case Some(fields) => Some(MessageValue(fields))
  }

  /** The fields of those members which the specs name. */
  function AllFields(specs: seq<FieldSpec>, json: Json): Option<seq<Field>>
    requires json.Object?
    decreases json, 0, |specs|
  {
    if specs == [] then Some([]) else
    Then(AllFields(specs[..|specs| - 1], json), Present(specs[|specs| - 1], json))
  }

  function Present(spec: FieldSpec, json: Json): Option<seq<Field>>
    requires json.Object?
    decreases json, 0, 0
  {
    var i := IndexOf(json.members, spec.name);
    if i == |json.members| then Some([]) else
      assert json.members[i] < json;
      MemberFields(spec, json.members[i].value)
  }

  /** The message which a tree says, field by field in the order of the numbers; None if it is refused. A value has one member
      at most, and an attribute has a key. */
  function FromJson(kind: Kind, json: Json): Option<seq<Field>>
    decreases json, 1
  {
    if !OnlyKnown(kind, json) then None
    else if kind == AnyValue && |json.members| > 1 then None
    else if kind == KeyValue && IndexOf(json.members, "key") == |json.members| then None
    else AllFields(Schema(kind), json)
  }

  /** A member which holds a message. */
  lemma MessageMember(spec: FieldSpec, k: Kind, v: Json)
    requires spec.shape == One(k)
    ensures MemberFields(spec, v) == if FromJson(k, v).Some? then Some([Field(spec.number, MessageValue(FromJson(k, v).value))]) else None
  {
    hide FromJson;
    assert MemberFields(spec, v) == Single(spec.number, MessageOf(k, v));
  }

  lemma {:induction false} ItemFails(kind: Kind, number: nat, items: seq<Json>, i: nat)
    requires i < |items| && FromJson(kind, items[i]) == None
    ensures ItemFields(kind, number, items) == None
  {
    hide FromJson;
    if i < |items| - 1 {
      ItemFails(kind, number, items[..|items| - 1], i);
    }
  }

  /* --- What is accepted is a message --- */

  lemma {:induction false} ShapeInFinds(specs: seq<FieldSpec>, i: nat)
    requires i < |specs| && forall a, b :: 0 <= a < b < |specs| ==> specs[a].number < specs[b].number
    ensures ShapeIn(specs, specs[i].number) == Some(specs[i].shape)
  {
    if i > 0 {
      ShapeInFinds(specs[1..], i - 1);
    }
  }

  lemma IsMessageConcat(kind: Kind, a: seq<Field>, b: seq<Field>)
    ensures IsMessage(kind, a + b) <==> IsMessage(kind, a) && IsMessage(kind, b)
  {
    hide IsField;
    assert forall i :: 0 <= i < |a| ==> (a + b)[i] == a[i];
    assert forall i :: 0 <= i < |b| ==> (a + b)[|a| + i] == b[i];
  }

  lemma {:induction false} FromJsonIsMessage(kind: Kind, json: Json)
    requires FromJson(kind, json).Some?
    ensures IsMessage(kind, FromJson(kind, json).value)
    decreases json, 1
  {
    hide Schema, IsMessage, IsField;
    assert Schema(kind)[..|Schema(kind)|] == Schema(kind);
    AllFieldsAreFields(kind, |Schema(kind)|, json);
  }

  /** What is accepted goes over the wire and comes back as it is, field by field, at every depth. */
  lemma ConversionComesBack(kind: Kind, json: Json)
    requires FromJson(kind, json).Some? && |Encode(FromJson(kind, json).value)| < UINT64_SPAN
    ensures Decode(kind, Encode(FromJson(kind, json).value)) == FromJson(kind, json)
  {
    hide FromJson, Decode, Encode, IsMessage;
    FromJsonIsMessage(kind, json);
    DecodeOfEncode(kind, FromJson(kind, json).value);
  }

  lemma {:induction false} AllFieldsAreFields(kind: Kind, n: nat, json: Json)
    requires json.Object? && n <= |Schema(kind)| && AllFields(Schema(kind)[..n], json).Some?
    ensures IsMessage(kind, AllFields(Schema(kind)[..n], json).value)
    decreases json, 0, n
  {
    hide Schema, IsField;
    var specs := Schema(kind)[..n];
    if n > 0 {
      assert specs[..n - 1] == Schema(kind)[..n - 1];
      AllFieldsAreFields(kind, n - 1, json);
      var spec := specs[n - 1];
      ShapeInFinds(Schema(kind), n - 1);
      var i := IndexOf(json.members, spec.name);
      if i < |json.members| {
        assert json.members[i] < json;
        MemberIsField(kind, spec, json.members[i].value);
      }
      IsMessageConcat(kind, AllFields(specs[..n - 1], json).value, Present(spec, json).value);
    }
  }

  lemma {:induction false} MemberIsField(kind: Kind, spec: FieldSpec, v: Json)
    requires ShapeOf(kind, spec.number) == Some(spec.shape) && MemberFields(spec, v).Some?
    ensures IsMessage(kind, MemberFields(spec, v).value)
    decreases v, 3
  {
    hide Schema, ShapeIn, FromJson, Scalar, IsMessage;
    match spec.shape
    case One(k) =>
      FromJsonIsMessage(k, v);
      OneIsMessage(kind, spec.number, spec.shape, MessageOf(k, v).value);
    case Many(k) => ItemsAreFields(kind, spec.number, k, v.items);
    case _ =>
      ScalarHasShape(spec.shape, v);
      OneIsMessage(kind, spec.number, spec.shape, Scalar(spec.shape, v).value);
  }

  lemma ScalarHasShape(shape: Shape, v: Json)
    requires Scalar(shape, v).Some?
    ensures HasShape(shape, Scalar(shape, v).value)
  {
    hide GetUint64, GetInt64;
  }

  lemma OneIsMessage(kind: Kind, number: nat, shape: Shape, v: Value)
    requires ShapeOf(kind, number) == Some(shape) && HasShape(shape, v)
    ensures IsMessage(kind, [Field(number, v)])
  {
    hide Schema, ShapeIn, HasShape;
    assert IsField(kind, Field(number, v));
  }

  lemma {:induction false} ItemsAreFields(kind: Kind, number: nat, k: Kind, items: seq<Json>)
    requires ShapeOf(kind, number) == Some(Many(k)) && ItemFields(k, number, items).Some?
    ensures IsMessage(kind, ItemFields(k, number, items).value)
    decreases items, 3
  {
    hide Schema, ShapeIn, FromJson;
    if items != [] {
      var last := items[|items| - 1];
      ItemsAreFields(kind, number, k, items[..|items| - 1]);
      FromJsonIsMessage(k, last);
      OneIsMessage(kind, number, Many(k), MessageOf(k, last).value);
      IsMessageConcat(kind, ItemFields(k, number, items[..|items| - 1]).value, Single(number, MessageOf(k, last)).value);
    }
  }

  /* --- The order of the members says nothing --- */

  predicate Distinct(members: seq<Member>) {
    forall i, j :: 0 <= i < j < |members| ==> members[i].name != members[j].name
  }

  /** The same tree with the members of any object in another order. No object has a name twice. */
  ghost predicate Reordered(a: Json, b: Json)
    decreases a
  {
    match a
    case Array(x) => b.Array? && |x| == |b.items| && forall i :: 0 <= i < |x| ==> Reordered(x[i], b.items[i])
    case Object(x) => b.Object? && SameMembers(x, b.members)
    case _ => a == b
  }

  ghost predicate SameMembers(x: seq<Member>, y: seq<Member>)
    decreases x
  {
    && |x| == |y| && Distinct(x) && Distinct(y)
    && (forall i :: 0 <= i < |x| ==> IndexOf(y, x[i].name) < |y| && Moved(x[i], y[IndexOf(y, x[i].name)]))
    && (forall j :: 0 <= j < |y| ==> IndexOf(x, y[j].name) < |x|)
  }

  ghost predicate Moved(a: Member, b: Member)
    decreases a
  {
    a.name == b.name && Reordered(a.value, b.value)
  }

  lemma {:induction false} ReorderedMeansTheSame(kind: Kind, a: Json, b: Json)
    requires Reordered(a, b)
    ensures FromJson(kind, a) == FromJson(kind, b)
    decreases a, 1
  {
    hide Schema, SameMembers, OnlyKnown, IndexOf, AllFields;
    if a.Object? {
      MembersTheSame(kind, a, b);
    } else {
      NotAnObject(kind, a);
      NotAnObject(kind, b);
    }
  }

  lemma NotAnObject(kind: Kind, a: Json)
    ensures !a.Object? ==> FromJson(kind, a) == None
  {
  }

  lemma {:induction false} MembersTheSame(kind: Kind, a: Json, b: Json)
    requires a.Object? && b.Object? && SameMembers(a.members, b.members)
    ensures FromJson(kind, a) == FromJson(kind, b)
    decreases a, 0, 100
  {
    hide Schema, OnlyKnown, Moved;
    KnownInBoth(kind, a, b);
    FoundInBoth(a.members, b.members, "key");
    SchemaIsShort(kind);
    AllFieldsTheSame(Schema(kind), a, b);
  }

  lemma SchemaIsShort(kind: Kind)
    ensures |Schema(kind)| < 100
  {
  }

  lemma KnownInBoth(kind: Kind, a: Json, b: Json)
    requires a.Object? && b.Object? && SameMembers(a.members, b.members)
    ensures OnlyKnown(kind, a) == OnlyKnown(kind, b)
  {
    hide Schema, IsKnown, Moved, IndexOf;
    NamesOfBoth(a.members, b.members);
    NamesOfBoth(b.members, a.members);
    if OnlyKnown(kind, a) {
      KnownByNames(Schema(kind), a.members, b.members);
    }
    if OnlyKnown(kind, b) {
      KnownByNames(Schema(kind), b.members, a.members);
    }
  }

  lemma NamesOfBoth(x: seq<Member>, y: seq<Member>)
    ensures SameMembers(x, y) ==> forall j :: 0 <= j < |y| ==> IndexOf(x, y[j].name) < |x|
    ensures SameMembers(y, x) ==> forall j :: 0 <= j < |y| ==> IndexOf(x, y[j].name) < |x|
  {
    hide Moved;
  }

  lemma KnownByNames(specs: seq<FieldSpec>, x: seq<Member>, y: seq<Member>)
    requires forall i :: 0 <= i < |x| ==> IsKnown(specs, x[i].name)
    requires forall j :: 0 <= j < |y| ==> IndexOf(x, y[j].name) < |x|
    ensures forall j :: 0 <= j < |y| ==> IsKnown(specs, y[j].name)
  {
    hide IsKnown;
    forall j | 0 <= j < |y| ensures IsKnown(specs, y[j].name) {
      assert x[IndexOf(x, y[j].name)].name == y[j].name;
    }
  }

  /** A name is found in both, with the same value but for the order, or in none. */
  lemma FoundInBoth(x: seq<Member>, y: seq<Member>, name: string)
    requires SameMembers(x, y)
    ensures var i, j := IndexOf(x, name), IndexOf(y, name);
            if i < |x| then j < |y| && Moved(x[i], y[j]) else j == |y|
  {
    hide Moved;
    var i, j := IndexOf(x, name), IndexOf(y, name);
    if j < |y| {
      assert y[j].name == name;
    }
  }

  lemma IndexIs(members: seq<Member>, k: nat)
    requires k < |members| && Distinct(members)
    ensures IndexOf(members, members[k].name) == k
  {
    forall j | 0 <= j < k ensures members[j].name != members[k].name {
    }
  }

  lemma {:induction false} AllFieldsTheSame(specs: seq<FieldSpec>, a: Json, b: Json)
    requires a.Object? && b.Object? && SameMembers(a.members, b.members)
    ensures AllFields(specs, a) == AllFields(specs, b)
    decreases a, 0, |specs|
  {
    hide SameMembers, Reordered, IndexOf;
    if specs != [] {
      var spec := specs[|specs| - 1];
      AllFieldsTheSame(specs[..|specs| - 1], a, b);
      FoundInBoth(a.members, b.members, spec.name);
      var i := IndexOf(a.members, spec.name);
      if i < |a.members| {
        assert a.members[i] < a;
        MemberFieldsTheSame(spec, a.members[i].value, b.members[IndexOf(b.members, spec.name)].value);
      }
    }
  }

  lemma {:induction false} MemberFieldsTheSame(spec: FieldSpec, a: Json, b: Json)
    requires Reordered(a, b)
    ensures MemberFields(spec, a) == MemberFields(spec, b)
    decreases a, 3
  {
    hide FromJson, Scalar, SameMembers, ItemFields;
    match spec.shape
    case One(k) => ReorderedMeansTheSame(k, a, b);
    case Many(k) =>
      if a.Array? {
        ItemFieldsTheSame(k, spec.number, a.items, b.items);
      }
    case _ => ScalarsTheSame(spec.shape, a, b);
  }

  lemma ScalarsTheSame(shape: Shape, a: Json, b: Json)
    requires Reordered(a, b)
    ensures Scalar(shape, a) == Scalar(shape, b)
  {
    hide SameMembers;
  }

  lemma {:induction false} ItemFieldsTheSame(kind: Kind, number: nat, a: seq<Json>, b: seq<Json>)
    requires |a| == |b| && forall i :: 0 <= i < |a| ==> Reordered(a[i], b[i])
    ensures ItemFields(kind, number, a) == ItemFields(kind, number, b)
    decreases a, 3
  {
    hide FromJson, Reordered;
    if a != [] {
      var n := |a| - 1;
      ItemFieldsTheSame(kind, number, a[..n], b[..n]);
      ReorderedMeansTheSame(kind, a[n], b[n]);
    }
  }
}

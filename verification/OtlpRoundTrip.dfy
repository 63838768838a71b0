/** From records to protobuf and back: the tree of every payload is taken by the converter if no time is negative, and only
    then, and a decoder gets the groups and the records with all their values back. */
module OtlpRoundTrip {
  import opened Bytes
  import opened OtlpWire
  import opened OtlpJson
  import opened OtlpMeaning
  import opened OtlpPayload
  import StateFile
  import Utf8

  /* --- The tree of a payload --- */

  function TextJson(t: bytes): Json {
    Text(Utf8.Repaired(t))
  }

  /** std::to_string */
  function SignedDigits(n: int64): bytes {
    if n < 0 then [MINUS] + StateFile.Digits(0 - n) else StateFile.Digits(n)
  }

  function ScalarJson(v: Scalar): Json {
    match v
    case Int(n) => Object([Member("intValue", Text(SignedDigits(n)))])
    case Double(bits) => Object([Member("doubleValue", Number(None, bits))])
    case Flag(b) => Object([Member("boolValue", Bool(b))])
    case Str(t) => Object([Member("stringValue", TextJson(t))])
  }

  function KVJson(kv: KV): Json {
    Object([Member("key", TextJson(kv.key)), Member("value", ScalarJson(kv.value))])
  }

  function KVsJson(kvs: seq<KV>): Json {
    Array(seq(|kvs|, i requires 0 <= i < |kvs| => KVJson(kvs[i])))
  }

  /** A record without the one time has the other one. */
  function TimeOf(r: Entry): int64 {
    if r.timeNs != 0 then r.timeNs else r.observedNs
  }

  function ObservedOf(r: Entry): int64 {
    if r.observedNs != 0 then r.observedNs else r.timeNs
  }

  function SeverityMembers(r: Entry, doubleOf: int -> uint64): seq<Member> {
    if r.severityNumber > 0 then [Member("severityNumber", Number(Some(r.severityNumber), doubleOf(r.severityNumber)))] else []
  }

  function SeverityTextMembers(r: Entry): seq<Member> {
    if r.severityText != [] then [Member("severityText", TextJson(r.severityText))] else []
  }

  function RecordJson(r: Entry, doubleOf: int -> uint64): Json {
    Object([Member("timeUnixNano", Text(SignedDigits(TimeOf(r)))), Member("observedTimeUnixNano", Text(SignedDigits(ObservedOf(r))))]
           + SeverityMembers(r, doubleOf) + SeverityTextMembers(r)
           + [Member("body", Object([Member("stringValue", TextJson(r.line))])), Member("attributes", KVsJson(r.attributes))])
  }

  function ScopeJson(first: Entry, d: Defaults): Json {
    if first.scopeName == [] then
      Object([Member("name", Text(d.task)), Member("version", Text(d.version))])
    else
      Object([Member("name", TextJson(first.scopeName))]
             + if first.scopeVersion != [] then [Member("version", TextJson(first.scopeVersion))] else [])
  }

  function ResourceOf(first: Entry, d: Defaults): seq<KV> {
    if first.resource == [] then d.resource else first.resource
  }

  function GroupJson(group: seq<Entry>, d: Defaults, doubleOf: int -> uint64): Json
    requires group != []
  {
    Object([
      Member("resource", Object([Member("attributes", KVsJson(ResourceOf(group[0], d)))])),
      Member("scopeLogs", Array([Object([
        Member("scope", ScopeJson(group[0], d)),
        Member("logRecords", Array(seq(|group|, i requires 0 <= i < |group| => RecordJson(group[i], doubleOf))))])]))])
  }

  function PayloadJson(groups: seq<seq<Entry>>, d: Defaults, doubleOf: int -> uint64): Json
    requires forall i :: 0 <= i < |groups| ==> groups[i] != []
  {
    Object([Member("resourceLogs", Array(seq(|groups|, i requires 0 <= i < |groups| => GroupJson(groups[i], d, doubleOf))))])
  }

  /* --- The message which it says --- */

  function ScalarFields(v: Scalar): seq<Field> {
    match v
    case Str(t) => [Field(1, TextValue(Utf8.Repaired(t)))]
    case Flag(b) => [Field(2, FlagValue(b))]
    case Int(n) => [Field(3, IntValue(n))]
    case Double(bits) => [Field(4, FixedValue(bits))]
  }

  function KVFields(kv: KV): seq<Field> {
    [Field(1, TextValue(Utf8.Repaired(kv.key))), Field(2, MessageValue(ScalarFields(kv.value)))]
  }

  /** A field for each message, all with the same number. */
  function Repeated(number: nat, messages: seq<seq<Field>>): seq<Field> {
    if messages == [] then [] else
    Repeated(number, messages[..|messages| - 1]) + [Field(number, MessageValue(messages[|messages| - 1]))]
  }

  function KVMessages(kvs: seq<KV>): seq<seq<Field>> {
    seq(|kvs|, i requires 0 <= i < |kvs| => KVFields(kvs[i]))
  }

  function RecordFields(r: Entry): seq<Field>
    requires TimeOf(r) >= 0 && ObservedOf(r) >= 0
  {
    [Field(1, FixedValue(TimeOf(r)))]
    + (if r.severityNumber > 0 then [Field(2, IntValue(r.severityNumber))] else [])
    + (if r.severityText != [] then [Field(3, TextValue(Utf8.Repaired(r.severityText)))] else [])
    + [Field(5, MessageValue([Field(1, TextValue(Utf8.Repaired(r.line)))]))]
    + Repeated(6, KVMessages(r.attributes))
    + [Field(11, FixedValue(ObservedOf(r)))]
  }

  function ScopeFields(first: Entry, d: Defaults): seq<Field> {
    if first.scopeName == [] then
      [Field(1, TextValue(d.task)), Field(2, TextValue(d.version))]
    else
      [Field(1, TextValue(Utf8.Repaired(first.scopeName)))]
      + if first.scopeVersion != [] then [Field(2, TextValue(Utf8.Repaired(first.scopeVersion)))] else []
  }

  /** No time of the group is negative. */
  predicate TimesFit(group: seq<Entry>) {
    forall i :: 0 <= i < |group| ==> group[i].timeNs >= 0 && group[i].observedNs >= 0
  }

  function RecordMessages(group: seq<Entry>): seq<seq<Field>>
    requires TimesFit(group)
  {
    seq(|group|, i requires 0 <= i < |group| => RecordFields(group[i]))
  }

  function GroupFields(group: seq<Entry>, d: Defaults): seq<Field>
    requires group != [] && TimesFit(group)
  {
    [Field(1, MessageValue(Repeated(1, KVMessages(ResourceOf(group[0], d))))),
     Field(2, MessageValue([Field(1, MessageValue(ScopeFields(group[0], d)))]
                           + Repeated(2, RecordMessages(group))))]
  }

  function GroupMessages(groups: seq<seq<Entry>>, d: Defaults): seq<seq<Field>>
    requires forall i :: 0 <= i < |groups| ==> groups[i] != [] && TimesFit(groups[i])
  {
    seq(|groups|, i requires 0 <= i < |groups| => GroupFields(groups[i], d))
  }

  function PayloadFields(groups: seq<seq<Entry>>, d: Defaults): seq<Field>
    requires forall i :: 0 <= i < |groups| ==> groups[i] != [] && TimesFit(groups[i])
  {
    Repeated(1, GroupMessages(groups, d))
  }

  /* --- Looking up members --- */

  /** The value of a name. */
  function Get(members: seq<Member>, name: string): Option<Json> {
    var i := IndexOf(members, name);
    if i < |members| then Some(members[i].value) else None
  }

  lemma {:induction false} GetConcat(a: seq<Member>, b: seq<Member>, name: string)
    ensures Get(a + b, name) == if Get(a, name).Some? then Get(a, name) else Get(b, name)
  {
    if a == [] {
      assert a + b == b;
    } else {
      assert (a + b)[1..] == a[1..] + b;
      GetConcat(a[1..], b, name);
    }
  }

  lemma GetOne(m: Member, name: string)
    ensures Get([m], name) == if m.name == name then Some(m.value) else None
  {
    assert [m][1..] == [];
  }

  lemma GetTwo(m: Member, n: Member, name: string)
    ensures Get([m, n], name) == if m.name == name then Some(m.value) else if n.name == name then Some(n.value) else None
  {
    assert [m, n] == [m] + [n];
    GetConcat([m], [n], name);
    GetOne(m, name);
    GetOne(n, name);
  }

  lemma PresentIsGet(spec: FieldSpec, json: Json)
    requires json.Object?
    ensures var v := Get(json.members, spec.name); Present(spec, json) == if v.Some? then MemberFields(spec, v.value) else Some([])
  {
    hide MemberFields;
  }

  predicate AllKnown(kind: Kind, members: seq<Member>) {
    forall i :: 0 <= i < |members| ==> IsKnown(Schema(kind), members[i].name)
  }

  lemma NameIsKnown(kind: Kind, k: nat)
    requires k < |Schema(kind)|
    ensures IsKnown(Schema(kind), Schema(kind)[k].name)
  {
    hide Schema;
    NamesArePlain(kind, k);
  }

  /* --- Numbers --- */

  lemma TimeText(n: int64)
    ensures GetUint64(Text(SignedDigits(n))) == if n >= 0 then Some(n) else None
  {
    if n >= 0 {
      StateFile.NumberOfDigits(n);
    } else {
      assert SignedDigits(n)[0] == MINUS;
    }
  }

  lemma IntText(n: int64)
    ensures GetInt64(Text(SignedDigits(n))) == Some(n)
  {
    if n >= 0 {
      StateFile.NumberOfDigits(n);
    } else {
      StateFile.NumberOfDigits(0 - n);
      assert SignedDigits(n)[1..] == StateFile.Digits(0 - n);
    }
  }

  /* --- The names of a message differ --- */

  lemma NamesDiffer(kind: Kind, i: nat, j: nat)
    requires i < |Schema(kind)| && j < |Schema(kind)| && i != j
    ensures Schema(kind)[i].name != Schema(kind)[j].name
  {
    assert |"resource"| != |"scopeLogs"| && |"scope"| != |"logRecords"| && |"name"| != |"version"| && |"key"| != |"value"|;
    match kind
    case LogRecord => RecordNamesDiffer();
    case AnyValue => ValueNamesDiffer();
    case _ =>
  }

  lemma ValueNamesDiffer()
    ensures "stringValue" != "boolValue" && "stringValue" != "intValue" && "stringValue" != "doubleValue"
    ensures "boolValue" != "intValue" && "boolValue" != "doubleValue" && "intValue" != "doubleValue"
  {
    assert |"stringValue"| == |"doubleValue"| == 11 && |"boolValue"| == 9 && |"intValue"| == 8;
    assert "stringValue"[0] != "doubleValue"[0];
  }

  lemma RecordNamesDiffer()
    ensures "timeUnixNano" != "severityNumber" && "timeUnixNano" != "severityText" && "timeUnixNano" != "body"
    ensures "timeUnixNano" != "attributes" && "timeUnixNano" != "observedTimeUnixNano"
    ensures "severityNumber" != "severityText" && "severityNumber" != "body" && "severityNumber" != "attributes"
    ensures "severityNumber" != "observedTimeUnixNano" && "severityText" != "body" && "severityText" != "attributes"
    ensures "severityText" != "observedTimeUnixNano" && "body" != "attributes" && "body" != "observedTimeUnixNano"
    ensures "attributes" != "observedTimeUnixNano"
  {
    assert |"timeUnixNano"| == |"severityText"| == 12 && |"severityNumber"| == 14 && |"body"| == 4 && |"attributes"| == 10;
    assert |"observedTimeUnixNano"| == 20 && "timeUnixNano"[0] != "severityText"[0];
  }

  /* --- Objects with few members --- */

  lemma ThenUnit(x: Option<seq<Field>>)
    ensures Then(Some([]), x) == x && Then(x, Some([])) == x
  {
    if x.Some? {
      assert [] + x.value == x.value && x.value + [] == x.value;
    }
  }

  /** An object with one member is that member. */
  lemma {:induction false} OneMember(kind: Kind, k: nat, v: Json, n: nat)
    requires k < |Schema(kind)| && n <= |Schema(kind)|
    ensures var json := Object([Member(Schema(kind)[k].name, v)]);
            AllFields(Schema(kind)[..n], json) == if n <= k then Some([]) else MemberFields(Schema(kind)[k], v)
    decreases n
  {
    hide Schema, MemberFields;
    var json := Object([Member(Schema(kind)[k].name, v)]);
    if n > 0 {
      var specs := Schema(kind)[..n];
      assert specs[..n - 1] == Schema(kind)[..n - 1] && specs[n - 1] == Schema(kind)[n - 1];
      OneMember(kind, k, v, n - 1);
      GetOne(json.members[0], specs[n - 1].name);
      PresentIsGet(specs[n - 1], json);
      if n - 1 != k {
        NamesDiffer(kind, n - 1, k);
      }
      ThenUnit(Present(specs[n - 1], json));
      ThenUnit(MemberFields(Schema(kind)[k], v));
    }
  }

  lemma Unroll2(kind: Kind, json: Json)
    requires json.Object? && |Schema(kind)| == 2
    ensures AllFields(Schema(kind), json) == Then(Present(Schema(kind)[0], json), Present(Schema(kind)[1], json))
  {
    hide Schema, Present, AllFields;
    var s := Schema(kind);
    ThenUnit(Present(s[0], json));
    NoFields(json);
    assert s[..0] == [] && s[..2] == s;
    UnrollOne(s, json, 0);
    UnrollOne(s, json, 1);
  }

  lemma Unroll6(kind: Kind, json: Json)
    requires json.Object? && |Schema(kind)| == 6
    ensures var s := Schema(kind);
            AllFields(s, json) == Then(Then(Then(Then(Then(Present(s[0], json), Present(s[1], json)), Present(s[2], json)),
                                                 Present(s[3], json)), Present(s[4], json)), Present(s[5], json))
  {
    hide Schema, Present, AllFields;
    var s := Schema(kind);
    ThenUnit(Present(s[0], json));
    NoFields(json);
    assert s[..0] == [] && s[..6] == s;
    UnrollOne(s, json, 0);
    UnrollOne(s, json, 1);
    UnrollOne(s, json, 2);
    UnrollOne(s, json, 3);
    UnrollOne(s, json, 4);
    UnrollOne(s, json, 5);
  }

  lemma NoFields(json: Json)
    requires json.Object?
    ensures AllFields([], json) == Some([])
  {
  }

  lemma UnrollOne(s: seq<FieldSpec>, json: Json, n: nat)
    requires json.Object? && n < |s|
    ensures AllFields(s[..n + 1], json) == Then(AllFields(s[..n], json), Present(s[n], json))
  {
    hide Present;
    assert s[..n + 1][..n] == s[..n] && s[..n + 1][n] == s[n];
  }

  lemma TwoMembers(kind: Kind, v0: Json, v1: Json)
    requires |Schema(kind)| == 2 && kind != AnyValue && kind != KeyValue
    ensures var json := Object([Member(Schema(kind)[0].name, v0), Member(Schema(kind)[1].name, v1)]);
            FromJson(kind, json) == Then(MemberFields(Schema(kind)[0], v0), MemberFields(Schema(kind)[1], v1))
  {
    hide Schema, MemberFields, AllFields, IsKnown;
    var json := Object([Member(Schema(kind)[0].name, v0), Member(Schema(kind)[1].name, v1)]);
    NamesDiffer(kind, 0, 1);
    NameIsKnown(kind, 0);
    NameIsKnown(kind, 1);
    Unroll2(kind, json);
    GetTwo(json.members[0], json.members[1], Schema(kind)[0].name);
    GetTwo(json.members[0], json.members[1], Schema(kind)[1].name);
    PresentIsGet(Schema(kind)[0], json);
    PresentIsGet(Schema(kind)[1], json);
  }

  /* --- Values and attributes --- */

  lemma ValueConverts(v: Scalar)
    ensures FromJson(AnyValue, ScalarJson(v)) == Some(ScalarFields(v))
  {
    hide Schema, AllFields, IsKnown, GetInt64, SignedDigits;
    var k := match v case Str(_) => 0 case Flag(_) => 1 case Int(_) => 2 case Double(_) => 3;
    ValueSchema();
    NameIsKnown(AnyValue, k);
    OneMember(AnyValue, k, ScalarJson(v).members[0].value, 4);
    assert Schema(AnyValue)[..4] == Schema(AnyValue);
    if v.Int? {
      IntText(v.number);
    }
  }

  lemma ValueSchema()
    ensures Schema(AnyValue) == [FieldSpec("stringValue", 1, TextShape), FieldSpec("boolValue", 2, FlagShape),
                                 FieldSpec("intValue", 3, Int64Shape), FieldSpec("doubleValue", 4, DoubleShape)]
  {
  }

  lemma KVConverts(kv: KV)
    ensures FromJson(KeyValue, KVJson(kv)) == Some(KVFields(kv))
  {
    hide AllFields, IsKnown, FromJson, IndexOf;
    var json := KVJson(kv);
    var s := Schema(KeyValue);
    NamesDiffer(KeyValue, 0, 1);
    NameIsKnown(KeyValue, 0);
    NameIsKnown(KeyValue, 1);
    Unroll2(KeyValue, json);
    GetTwo(json.members[0], json.members[1], s[0].name);
    GetTwo(json.members[0], json.members[1], s[1].name);
    PresentIsGet(s[0], json);
    PresentIsGet(s[1], json);
    ValueConverts(kv.value);
    MessageMember(s[1], AnyValue, ScalarJson(kv.value));
    KeyValueIs(json);
    var a, b := Field(1, TextValue(Utf8.Repaired(kv.key))), Field(2, MessageValue(ScalarFields(kv.value)));
    assert [a] + [b] == [a, b];
  }

  lemma KeyValueIs(json: Json)
    requires json.Object? && AllKnown(KeyValue, json.members) && Get(json.members, "key").Some?
    ensures FromJson(KeyValue, json) == AllFields(Schema(KeyValue), json)
  {
    hide AllFields, IsKnown, IndexOf;
  }

  lemma {:induction false} ItemsConvert(kind: Kind, number: nat, items: seq<Json>, messages: seq<seq<Field>>)
    requires |items| == |messages| && forall i :: 0 <= i < |items| ==> FromJson(kind, items[i]) == Some(messages[i])
    ensures ItemFields(kind, number, items) == Some(Repeated(number, messages))
  {
    hide FromJson;
    if items != [] {
      var n := |items| - 1;
      ItemsConvert(kind, number, items[..n], messages[..n]);
      assert Single(number, MessageOf(kind, items[n])) == Some([Field(number, MessageValue(messages[n]))]);
    }
  }

  lemma KVsConvert(number: nat, kvs: seq<KV>)
    ensures ItemFields(KeyValue, number, KVsJson(kvs).items) == Some(Repeated(number, KVMessages(kvs)))
  {
    hide FromJson, ItemFields, Repeated, KVJson, KVFields;
    forall i | 0 <= i < |kvs| ensures FromJson(KeyValue, KVsJson(kvs).items[i]) == Some(KVMessages(kvs)[i]) {
      KVConverts(kvs[i]);
    }
    ItemsConvert(KeyValue, number, KVsJson(kvs).items, KVMessages(kvs));
  }

  /* --- Records --- */

  /** What the members of a record are called. */
  lemma RecordGets(r: Entry, doubleOf: int -> uint64)
    ensures var m := RecordJson(r, doubleOf).members;
            && Get(m, "timeUnixNano") == Some(Text(SignedDigits(TimeOf(r))))
            && Get(m, "severityNumber") == (if r.severityNumber > 0 then Some(SeverityMembers(r, doubleOf)[0].value) else None)
            && Get(m, "severityText") == (if r.severityText != [] then Some(TextJson(r.severityText)) else None)
            && Get(m, "body") == Some(ScalarJson(Str(r.line)))
            && Get(m, "attributes") == Some(KVsJson(r.attributes))
            && Get(m, "observedTimeUnixNano") == Some(Text(SignedDigits(ObservedOf(r))))
  {
    hide KVsJson, TextJson, SignedDigits, Get;
    RecordNamesDiffer();
    RecordGet(r, doubleOf, "timeUnixNano");
    RecordGet(r, doubleOf, "severityNumber");
    RecordGet(r, doubleOf, "severityText");
    RecordGet(r, doubleOf, "body");
    RecordGet(r, doubleOf, "attributes");
    RecordGet(r, doubleOf, "observedTimeUnixNano");
  }

  function Or(a: Option<Json>, b: Option<Json>): Option<Json> {
    if a.Some? then a else b
  }

  function If(name: string, m: Member): Option<Json> {
    if m.name == name then Some(m.value) else None
  }

  lemma RecordGet(r: Entry, doubleOf: int -> uint64, name: string)
    ensures var m := RecordJson(r, doubleOf).members;
            Get(m, name) == Or(Or(Or(Or(If(name, m[0]), If(name, m[1])),
                                     if r.severityNumber > 0 then If(name, SeverityMembers(r, doubleOf)[0]) else None),
                                  if r.severityText != [] then If(name, SeverityTextMembers(r)[0]) else None),
                               Or(If(name, m[|m| - 2]), If(name, m[|m| - 1])))
    ensures var m := RecordJson(r, doubleOf).members;
            && |m| >= 4 && m[0] == Member("timeUnixNano", Text(SignedDigits(TimeOf(r))))
            && m[1] == Member("observedTimeUnixNano", Text(SignedDigits(ObservedOf(r))))
            && m[|m| - 2] == Member("body", ScalarJson(Str(r.line))) && m[|m| - 1] == Member("attributes", KVsJson(r.attributes))
  {
    hide KVsJson, TextJson, SignedDigits, Get;
    var m := RecordJson(r, doubleOf).members;
    var a, s, t, b := m[..2], SeverityMembers(r, doubleOf), SeverityTextMembers(r), m[|m| - 2..];
    assert a == [m[0], m[1]] && b == [m[|m| - 2], m[|m| - 1]];
    assert m == a + s + t + b;
    GetConcat(a + s + t, b, name);
    GetConcat(a + s, t, name);
    GetConcat(a, s, name);
    GetTwo(m[0], m[1], name);
    GetTwo(m[|m| - 2], m[|m| - 1], name);
    GetNone(name);
    if s != [] {
      assert s == [s[0]];
      GetOne(s[0], name);
    }
    if t != [] {
      assert t == [t[0]];
      GetOne(t[0], name);
    }
  }

  lemma GetNone(name: string)
    ensures Get([], name) == None
  {
  }

  lemma RecordIsKnown(r: Entry, doubleOf: int -> uint64)
    ensures AllKnown(LogRecord, RecordJson(r, doubleOf).members)
  {
    hide IsKnown, KVsJson, TextJson, SignedDigits;
    RecordSchema();
    NameIsKnown(LogRecord, 0);
    NameIsKnown(LogRecord, 1);
    NameIsKnown(LogRecord, 2);
    NameIsKnown(LogRecord, 3);
    NameIsKnown(LogRecord, 4);
    NameIsKnown(LogRecord, 5);
    hide Schema;
    var m := RecordJson(r, doubleOf).members;
    forall i | 0 <= i < |m| ensures IsKnown(Schema(LogRecord), m[i].name) {
    }
  }

  lemma RecordSchema()
    ensures Schema(LogRecord) == [FieldSpec("timeUnixNano", 1, TimeShape), FieldSpec("severityNumber", 2, Int32Shape),
                                  FieldSpec("severityText", 3, TextShape), FieldSpec("body", 5, One(AnyValue)),
                                  FieldSpec("attributes", 6, Many(KeyValue)), FieldSpec("observedTimeUnixNano", 11, TimeShape)]
  {
  }

  /** A record is converted if and only if neither of its times is negative. */
  lemma RecordConverts(r: Entry, doubleOf: int -> uint64)
    ensures FromJson(LogRecord, RecordJson(r, doubleOf)) == if r.timeNs >= 0 && r.observedNs >= 0 then Some(RecordFields(r)) else None
  {
    hide Schema, AllFields, IsKnown, FromJson, Get, KVsJson, SignedDigits, GetUint64, ItemFields, RecordJson, Repeated,
         KVMessages;
    var json := RecordJson(r, doubleOf);
    var s := Schema(LogRecord);
    RecordSchema();
    RecordIsKnown(r, doubleOf);
    IsObject(r, doubleOf);
    RecordGets(r, doubleOf);
    Unroll6(LogRecord, json);
    PresentIsGet(s[0], json);
    PresentIsGet(s[1], json);
    PresentIsGet(s[2], json);
    PresentIsGet(s[3], json);
    PresentIsGet(s[4], json);
    PresentIsGet(s[5], json);
    TimeText(TimeOf(r));
    TimeText(ObservedOf(r));
    ValueConverts(Str(r.line));
    MessageMember(s[3], AnyValue, ScalarJson(Str(r.line)));
    KVsConvert(6, r.attributes);
    NotAValue(json);
  }

  lemma IsObject(r: Entry, doubleOf: int -> uint64)
    ensures RecordJson(r, doubleOf).Object? && KVsJson(r.attributes).Array?
  {
  }

  lemma NotAValue(json: Json)
    requires json.Object? && AllKnown(LogRecord, json.members)
    ensures FromJson(LogRecord, json) == AllFields(Schema(LogRecord), json)
  {
    hide Schema, AllFields, IsKnown;
  }

  /* --- Groups --- */

  lemma ScopeConverts(first: Entry, d: Defaults)
    ensures FromJson(Scope, ScopeJson(first, d)) == Some(ScopeFields(first, d))
  {
    hide AllFields, IsKnown;
    var s := Schema(Scope);
    if first.scopeName == [] {
      TwoMembers(Scope, Text(d.task), Text(d.version));
      JoinTwo(Field(1, TextValue(d.task)), Field(2, TextValue(d.version)));
    } else if first.scopeVersion != [] {
      var n, v := Member("name", TextJson(first.scopeName)), Member("version", TextJson(first.scopeVersion));
      assert [n] + [v] == [n, v];
      TwoMembers(Scope, n.value, v.value);
      JoinTwo(Field(1, TextValue(Utf8.Repaired(first.scopeName))), Field(2, TextValue(Utf8.Repaired(first.scopeVersion))));
    } else {
      var n := Member("name", TextJson(first.scopeName));
      assert [n] + [] == [n];
      NameIsKnown(Scope, 0);
      OneMember(Scope, 0, n.value, 2);
      var f := Field(1, TextValue(Utf8.Repaired(first.scopeName)));
      assert s[..2] == s && [f] + [] == [f];
    }
  }

  lemma JoinTwo(a: Field, b: Field)
    ensures Then(Some([a]), Some([b])) == Some([a, b]) == Some([a] + [b])
  {
    assert [a] + [b] == [a, b];
  }

  lemma ResourceConverts(kvs: seq<KV>)
    ensures FromJson(Resource, Object([Member("attributes", KVsJson(kvs))])) == Some(Repeated(1, KVMessages(kvs)))
  {
    hide AllFields, IsKnown, ItemFields, Repeated, KVMessages;
    NameIsKnown(Resource, 0);
    OneMember(Resource, 0, KVsJson(kvs), 1);
    assert Schema(Resource)[..1] == Schema(Resource);
    KVsConvert(1, kvs);
  }

  function RecordsJson(group: seq<Entry>, doubleOf: int -> uint64): Json {
    Array(seq(|group|, i requires 0 <= i < |group| => RecordJson(group[i], doubleOf)))
  }

  lemma RecordsConvert(group: seq<Entry>, doubleOf: int -> uint64)
    ensures ItemFields(LogRecord, 2, RecordsJson(group, doubleOf).items)
            == if TimesFit(group) then Some(Repeated(2, RecordMessages(group))) else None
  {
    hide FromJson, ItemFields, Repeated, RecordJson, RecordFields;
    var items := RecordsJson(group, doubleOf).items;
    forall i | 0 <= i < |group|
      ensures FromJson(LogRecord, items[i])
              == if group[i].timeNs >= 0 && group[i].observedNs >= 0 then Some(RecordFields(group[i])) else None
    {
      RecordConverts(group[i], doubleOf);
    }
    if TimesFit(group) {
      ItemsConvert(LogRecord, 2, items, RecordMessages(group));
    } else {
      var i :| 0 <= i < |group| && !(group[i].timeNs >= 0 && group[i].observedNs >= 0);
      ItemFails(LogRecord, 2, items, i);
    }
  }

  /** A group is converted if and only if no time in it is negative. */
  lemma GroupConverts(group: seq<Entry>, d: Defaults, doubleOf: int -> uint64)
    requires group != []
    ensures FromJson(ResourceLogs, GroupJson(group, d, doubleOf)) == if TimesFit(group) then Some(GroupFields(group, d)) else None
  {
    hide AllFields, IsKnown, FromJson, ItemFields, Repeated, RecordMessages, KVMessages, KVsJson, ScopeJson, ScopeFields,
         TimesFit;
    var resource := Object([Member("attributes", KVsJson(ResourceOf(group[0], d)))]);
    var scope, records := ScopeJson(group[0], d), RecordsJson(group, doubleOf);
    var scopeLogs := Object([Member("scope", scope), Member("logRecords", records)]);
    SplitGroup(group, d, doubleOf);
    ResourceConverts(ResourceOf(group[0], d));
    ScopeConverts(group[0], d);
    RecordsConvert(group, doubleOf);
    TwoMembers(ScopeLogs, scope, records);
    MessageMember(Schema(ScopeLogs)[0], Scope, scope);
    TwoMembers(ResourceLogs, resource, Array([scopeLogs]));
    MessageMember(Schema(ResourceLogs)[0], Resource, resource);
    OneItem(ScopeLogs, 2, scopeLogs);
    if TimesFit(group) {
      JoinTwo(Field(1, MessageValue(Repeated(1, KVMessages(ResourceOf(group[0], d))))),
              Field(2, MessageValue(FromJson(ScopeLogs, scopeLogs).value)));
    }
  }

  lemma SplitGroup(group: seq<Entry>, d: Defaults, doubleOf: int -> uint64)
    requires group != []
    ensures GroupJson(group, d, doubleOf) == Object([
              Member("resource", Object([Member("attributes", KVsJson(ResourceOf(group[0], d)))])),
              Member("scopeLogs", Array([Object([Member("scope", ScopeJson(group[0], d)), Member("logRecords", RecordsJson(group, doubleOf))])]))])
  {
    hide KVsJson, ScopeJson, RecordJson;
    assert GroupJson(group, d, doubleOf).members[1].value.items[0].members[1].value.items == RecordsJson(group, doubleOf).items;
  }

  lemma OneItem(kind: Kind, number: nat, item: Json)
    ensures ItemFields(kind, number, [item])
            == if FromJson(kind, item).Some? then Some([Field(number, MessageValue(FromJson(kind, item).value))]) else None
  {
    hide FromJson;
    assert [item][..0] == [];
    ThenUnit(Single(number, MessageOf(kind, item)));
    assert ItemFields(kind, number, []) == Some([]);
  }

  function GroupsJson(groups: seq<seq<Entry>>, d: Defaults, doubleOf: int -> uint64): seq<Json>
    requires forall i :: 0 <= i < |groups| ==> groups[i] != []
  {
    seq(|groups|, i requires 0 <= i < |groups| => GroupJson(groups[i], d, doubleOf))
  }

  /** A payload is converted if and only if no time in it is negative, and then it says the groups, and the records of each of
      them, in their order. */
  lemma PayloadConverts(groups: seq<seq<Entry>>, d: Defaults, doubleOf: int -> uint64)
    requires forall i :: 0 <= i < |groups| ==> groups[i] != []
    ensures FromJson(Request, PayloadJson(groups, d, doubleOf)).Some? <==> forall i :: 0 <= i < |groups| ==> TimesFit(groups[i])
    ensures (forall i :: 0 <= i < |groups| ==> TimesFit(groups[i])) ==>
              FromJson(Request, PayloadJson(groups, d, doubleOf)) == Some(PayloadFields(groups, d))
  {
    hide AllFields, IsKnown, FromJson, ItemFields, Repeated, GroupJson, GroupFields, TimesFit;
    var json, items := PayloadJson(groups, d, doubleOf), GroupsJson(groups, d, doubleOf);
    RequestIs(items);
    assert json.members[0].value.items == items;
    forall i | 0 <= i < |groups|
      ensures FromJson(ResourceLogs, items[i]) == if TimesFit(groups[i]) then Some(GroupFields(groups[i], d)) else None
    {
      GroupConverts(groups[i], d, doubleOf);
    }
    if forall i :: 0 <= i < |groups| ==> TimesFit(groups[i]) {
      ItemsConvert(ResourceLogs, 1, items, GroupMessages(groups, d));
    } else {
      var i :| 0 <= i < |groups| && !TimesFit(groups[i]);
      ItemFails(ResourceLogs, 1, items, i);
    }
  }

  lemma RequestIs(items: seq<Json>)
    ensures FromJson(Request, Object([Member("resourceLogs", Array(items))])) == ItemFields(ResourceLogs, 1, items)
  {
    hide AllFields, IsKnown, ItemFields;
    NameIsKnown(Request, 0);
    OneMember(Request, 0, Array(items), 1);
    assert Schema(Request)[..1] == Schema(Request);
  }

  /** The main result: a decoder of the protobuf which is sent gets the groups and all their records back. */
  lemma PayloadRoundTrip(groups: seq<seq<Entry>>, d: Defaults, doubleOf: int -> uint64)
    requires forall i :: 0 <= i < |groups| ==> groups[i] != [] && TimesFit(groups[i])
    requires |Encode(PayloadFields(groups, d))| < UINT64_SPAN
    ensures FromJson(Request, PayloadJson(groups, d, doubleOf)) == Some(PayloadFields(groups, d))
    ensures Decode(Request, Encode(PayloadFields(groups, d))) == Some(PayloadFields(groups, d))
  {
    hide PayloadJson, PayloadFields, FromJson, Encode, Decode, TimesFit;
    PayloadConverts(groups, d, doubleOf);
    ConversionComesBack(Request, PayloadJson(groups, d, doubleOf));
  }
}

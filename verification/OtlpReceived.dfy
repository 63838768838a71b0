/** What a receiver reads out of a payload: records, attributes, scopes and resources, looked up in the fields of the message. */
module OtlpReceived {
  import opened Bytes
  import opened OtlpWire
  import opened OtlpJson
  import opened OtlpPayload
  import opened OtlpRoundTrip
  import Utf8

  datatype Received = Received(timeNs: int, observedNs: int, severityNumber: int, severityText: bytes, body: bytes, attributes: seq<KV>)

  datatype ReceivedGroup = ReceivedGroup(resource: seq<KV>, scopeName: bytes, scopeVersion: bytes, records: seq<Received>)

  /* --- Reading a message --- */

  /** The values of the fields with this number, in their order. */
  function ValuesAt(fields: seq<Field>, number: nat): seq<Value> {
    if fields == [] then [] else (if fields[0].number == number then [fields[0].value] else []) + ValuesAt(fields[1..], number)
  }

  /** What is not there is empty. */
  function TextAt(fields: seq<Field>, number: nat): bytes {
    var v := ValuesAt(fields, number);
    if v != [] && v[0].TextValue? then v[0].text else []
  }

  function IntAt(fields: seq<Field>, number: nat): int {
    var v := ValuesAt(fields, number);
    if v != [] && v[0].IntValue? then v[0].number else 0
  }

  function FixedAt(fields: seq<Field>, number: nat): int {
    var v := ValuesAt(fields, number);
    if v != [] && v[0].FixedValue? then v[0].bits else 0
  }

  function MessageAt(fields: seq<Field>, number: nat): seq<Field> {
    var v := ValuesAt(fields, number);
    if v != [] then FieldsOf(v[0]) else []
  }

  function FieldsOf(v: Value): seq<Field> {
    if v.MessageValue? then v.fields else []
  }

  function ScalarOf(fields: seq<Field>): Scalar {
    if fields == [] then Str([]) else
    match fields[0].value
    case TextValue(t) => Str(t)
    case FlagValue(b) => Flag(b)
    case IntValue(n) => Int(n)
    case FixedValue(bits) => Double(bits)
    case MessageValue(_) => Str([])
  }

  function KVOf(fields: seq<Field>): KV {
    KV(TextAt(fields, 1), ScalarOf(MessageAt(fields, 2)))
  }

  function KVsOf(values: seq<Value>): seq<KV> {
    seq(|values|, i requires 0 <= i < |values| => KVOf(FieldsOf(values[i])))
  }

  function RecordOf(fields: seq<Field>): Received {
    Received(FixedAt(fields, 1), FixedAt(fields, 11), IntAt(fields, 2), TextAt(fields, 3), TextAt(MessageAt(fields, 5), 1),
             KVsOf(ValuesAt(fields, 6)))
  }

  function RecordsOf(values: seq<Value>): seq<Received> {
    seq(|values|, i requires 0 <= i < |values| => RecordOf(FieldsOf(values[i])))
  }

  /** A group is sent with one scope. */
  function GroupOf(fields: seq<Field>): ReceivedGroup {
    var scopeLogs := MessageAt(fields, 2);
    var scope := MessageAt(scopeLogs, 1);
    ReceivedGroup(KVsOf(ValuesAt(MessageAt(fields, 1), 1)), TextAt(scope, 1), TextAt(scope, 2), RecordsOf(ValuesAt(scopeLogs, 2)))
  }

  function GroupsOf(fields: seq<Field>): seq<ReceivedGroup> {
    var values := ValuesAt(fields, 1);
    seq(|values|, i requires 0 <= i < |values| => GroupOf(FieldsOf(values[i])))
  }

  /* --- What was sent --- */

  function RepairedKV(kv: KV): KV {
    KV(Utf8.Repaired(kv.key), if kv.value.Str? then Str(Utf8.Repaired(kv.value.text)) else kv.value)
  }

  function RepairedKVs(kvs: seq<KV>): seq<KV> {
    seq(|kvs|, i requires 0 <= i < |kvs| => RepairedKV(kvs[i]))
  }

  /** A record as it is meant: its times, where each stands in for the other one, a severity which is positive, and its texts,
      repaired. */
  ghost function Sent(r: Entry): Received {
    Received(if r.timeNs != 0 then r.timeNs else r.observedNs, if r.observedNs != 0 then r.observedNs else r.timeNs,
             if r.severityNumber > 0 then r.severityNumber else 0, Utf8.Repaired(r.severityText), Utf8.Repaired(r.line),
             RepairedKVs(r.attributes))
  }

  ghost function SentRecords(group: seq<Entry>): seq<Received> {
    seq(|group|, i requires 0 <= i < |group| => Sent(group[i]))
  }

  /** The records of a group, with the resource and the scope which all of them have, or with those of the forwarder. */
  ghost function SentGroup(group: seq<Entry>, d: Defaults): ReceivedGroup
    requires group != []
  {
    var first := group[0];
    ReceivedGroup(RepairedKVs(if first.resource == [] then d.resource else first.resource),
                  if first.scopeName == [] then d.task else Utf8.Repaired(first.scopeName),
                  if first.scopeName == [] then d.version else Utf8.Repaired(first.scopeVersion),
                  SentRecords(group))
  }

  /** The main result: who decodes the protobuf of a payload and looks up the fields gets, group by group and record by record, in
      their order, exactly what was meant. */
  lemma ReceivedIsSent(groups: seq<seq<Entry>>, d: Defaults)
    requires forall i :: 0 <= i < |groups| ==> groups[i] != [] && TimesFit(groups[i])
    requires |Encode(PayloadFields(groups, d))| < UINT64_SPAN
    ensures var decoded := Decode(Request, Encode(PayloadFields(groups, d)));
            && decoded.Some? && |GroupsOf(decoded.value)| == |groups|
            && forall i :: 0 <= i < |groups| ==> GroupsOf(decoded.value)[i] == SentGroup(groups[i], d)
  {
    hide Encode, Decode, FromJson, PayloadJson, TimesFit, GroupsOf, PayloadFields, SentGroup;
    PayloadRoundTrip(groups, d, i => 0);
    FieldsAreSent(groups, d);
  }

  lemma FieldsAreSent(groups: seq<seq<Entry>>, d: Defaults)
    requires forall i :: 0 <= i < |groups| ==> groups[i] != [] && TimesFit(groups[i])
    ensures var received := GroupsOf(PayloadFields(groups, d));
            |received| == |groups| && forall i :: 0 <= i < |groups| ==> received[i] == SentGroup(groups[i], d)
  {
    hide TimesFit, GroupFields, GroupOf, SentGroup, ValuesAt, Repeated;
    ValuesOfRepeated(1, GroupMessages(groups, d), 1);
    forall i | 0 <= i < |groups| ensures GroupsOf(PayloadFields(groups, d))[i] == SentGroup(groups[i], d) {
      GroupIsSent(groups[i], d);
    }
  }

  lemma {:induction false} ValuesConcat(a: seq<Field>, b: seq<Field>, number: nat)
    ensures ValuesAt(a + b, number) == ValuesAt(a, number) + ValuesAt(b, number)
  {
    if a == [] {
      assert a + b == b;
    } else {
      assert (a + b)[1..] == a[1..] + b;
      ValuesConcat(a[1..], b, number);
      var first := if a[0].number == number then [a[0].value] else [];
      assert first + (ValuesAt(a[1..], number) + ValuesAt(b, number)) == first + ValuesAt(a[1..], number) + ValuesAt(b, number);
    }
  }

  lemma ValuesOfOne(f: Field, number: nat)
    ensures ValuesAt([f], number) == (if f.number == number then [f.value] else []) && ValuesAt([], number) == []
  {
    assert [f][1..] == [];
  }

  lemma {:induction false} ValuesOfRepeated(number: nat, messages: seq<seq<Field>>, n: nat)
    ensures ValuesAt(Repeated(number, messages), n)
            == if n == number then seq(|messages|, i requires 0 <= i < |messages| => MessageValue(messages[i])) else []
  {
    if messages != [] {
      var front, last := messages[..|messages| - 1], Field(number, MessageValue(messages[|messages| - 1]));
      ValuesOfRepeated(number, front, n);
      ValuesConcat(Repeated(number, front), [last], n);
      ValuesOfOne(last, n);
    }
  }

  /* --- Attributes --- */

  lemma KVIsSent(kv: KV)
    ensures KVOf(KVFields(kv)) == RepairedKV(kv)
  {
    var f := KVFields(kv);
    assert f == [f[0]] + [f[1]];
    ValuesTwo(f[0], f[1], 1);
    ValuesTwo(f[0], f[1], 2);
  }

  lemma ValuesTwo(f: Field, g: Field, n: nat)
    ensures ValuesAt([f, g], n) == (if f.number == n then [f.value] else []) + (if g.number == n then [g.value] else [])
  {
    assert [f, g] == [f] + [g];
    ValuesConcat([f], [g], n);
    ValuesOfOne(f, n);
    ValuesOfOne(g, n);
  }

  lemma KVsAreSent(number: nat, kvs: seq<KV>)
    ensures KVsOf(ValuesAt(Repeated(number, KVMessages(kvs)), number)) == RepairedKVs(kvs)
  {
    hide ValuesAt, Repeated, KVOf, KVFields, RepairedKV;
    ValuesOfRepeated(number, KVMessages(kvs), number);
    forall i | 0 <= i < |kvs| ensures KVOf(KVFields(kvs[i])) == RepairedKV(kvs[i]) {
      KVIsSent(kvs[i]);
    }
  }

  /* --- Records --- */

  lemma RecordIsSent(r: Entry)
    requires TimeOf(r) >= 0 && ObservedOf(r) >= 0
    ensures RecordOf(RecordFields(r)) == Sent(r)
  {
    hide ValuesAt, RecordFields, KVsOf, RepairedKVs, Repeated, KVMessages;
    ValuesOfRecord(r, 1);
    ValuesOfRecord(r, 2);
    ValuesOfRecord(r, 3);
    ValuesOfRecord(r, 5);
    ValuesOfRecord(r, 6);
    ValuesOfRecord(r, 11);
    KVsAreSent(6, r.attributes);
    ValuesOfOne(Field(1, TextValue(Utf8.Repaired(r.line))), 1);
    NothingToRepair();
  }

  lemma NothingToRepair()
    ensures Utf8.Repaired([]) == []
  {
  }

  lemma ValuesOfRecord(r: Entry, n: nat)
    requires TimeOf(r) >= 0 && ObservedOf(r) >= 0
    ensures n == 1 ==> ValuesAt(RecordFields(r), n) == [FixedValue(TimeOf(r))]
    ensures n == 2 ==> ValuesAt(RecordFields(r), n) == if r.severityNumber > 0 then [IntValue(r.severityNumber)] else []
    ensures n == 3 ==> ValuesAt(RecordFields(r), n) == if r.severityText != [] then [TextValue(Utf8.Repaired(r.severityText))] else []
    ensures n == 5 ==> ValuesAt(RecordFields(r), n) == [MessageValue([Field(1, TextValue(Utf8.Repaired(r.line)))])]
    ensures n == 6 ==> ValuesAt(RecordFields(r), n) == ValuesAt(Repeated(6, KVMessages(r.attributes)), 6)
    ensures n == 11 ==> ValuesAt(RecordFields(r), n) == [FixedValue(ObservedOf(r))]
  {
    hide ValuesAt, Repeated, KVMessages;
    var a, e := Field(1, FixedValue(TimeOf(r))), Field(11, FixedValue(ObservedOf(r)));
    var b := if r.severityNumber > 0 then [Field(2, IntValue(r.severityNumber))] else [];
    var c := if r.severityText != [] then [Field(3, TextValue(Utf8.Repaired(r.severityText)))] else [];
    var line := Field(5, MessageValue([Field(1, TextValue(Utf8.Repaired(r.line)))]));
    var kvs := Repeated(6, KVMessages(r.attributes));
    assert RecordFields(r) == [a] + b + c + [line] + kvs + [e];
    ValuesConcat([a] + b + c + [line] + kvs, [e], n);
    ValuesConcat([a] + b + c + [line], kvs, n);
    ValuesConcat([a] + b + c, [line], n);
    ValuesConcat([a] + b, c, n);
    ValuesConcat([a], b, n);
    ValuesOfOne(a, n);
    ValuesOfOne(e, n);
    ValuesOfOne(line, n);
    ValuesOfOne(Field(2, IntValue(r.severityNumber)), n);
    ValuesOfOne(Field(3, TextValue(Utf8.Repaired(r.severityText))), n);
    ValuesOfRepeated(6, KVMessages(r.attributes), n);
  }

  lemma RecordsAreSent(group: seq<Entry>)
    requires TimesFit(group)
    ensures RecordsOf(ValuesAt(Repeated(2, RecordMessages(group)), 2)) == SentRecords(group)
  {
    hide ValuesAt, Repeated, RecordOf, RecordFields, Sent;
    ValuesOfRepeated(2, RecordMessages(group), 2);
    forall i | 0 <= i < |group| ensures RecordOf(RecordFields(group[i])) == Sent(group[i]) {
      RecordIsSent(group[i]);
    }
  }

  /* --- Groups --- */

  lemma ScopeIsSent(first: Entry, d: Defaults)
    ensures TextAt(ScopeFields(first, d), 1) == if first.scopeName == [] then d.task else Utf8.Repaired(first.scopeName)
    ensures TextAt(ScopeFields(first, d), 2) == if first.scopeName == [] then d.version else Utf8.Repaired(first.scopeVersion)
  {
    hide ValuesAt;
    NothingToRepair();
    var f := ScopeFields(first, d);
    if |f| == 2 {
      assert f == [f[0], f[1]];
      ValuesTwo(f[0], f[1], 1);
      ValuesTwo(f[0], f[1], 2);
    } else {
      assert f == [f[0]];
      ValuesOfOne(f[0], 1);
      ValuesOfOne(f[0], 2);
    }
  }

  lemma GroupIsSent(group: seq<Entry>, d: Defaults)
    requires group != [] && TimesFit(group)
    ensures GroupOf(GroupFields(group, d)) == SentGroup(group, d)
  {
    hide ValuesAt, Repeated, RecordsOf, KVsOf, RepairedKVs, SentRecords, ScopeFields, RecordMessages, KVMessages, TimesFit;
    var resource := Repeated(1, KVMessages(ResourceOf(group[0], d)));
    var scope := Field(1, MessageValue(ScopeFields(group[0], d)));
    var records := Repeated(2, RecordMessages(group));
    var scopeLogs := [scope] + records;
    ValuesTwo(Field(1, MessageValue(resource)), Field(2, MessageValue(scopeLogs)), 1);
    ValuesTwo(Field(1, MessageValue(resource)), Field(2, MessageValue(scopeLogs)), 2);
    ValuesConcat([scope], records, 1);
    ValuesConcat([scope], records, 2);
    ValuesOfOne(scope, 1);
    ValuesOfOne(scope, 2);
    ValuesOfRepeated(2, RecordMessages(group), 1);
    ScopeIsSent(group[0], d);
    KVsAreSent(1, ResourceOf(group[0], d));
    RecordsAreSent(group);
    assert GroupFields(group, d) == [Field(1, MessageValue(resource)), Field(2, MessageValue(scopeLogs))];
    assert MessageAt(GroupFields(group, d), 1) == resource && MessageAt(GroupFields(group, d), 2) == scopeLogs;
    assert MessageAt(scopeLogs, 1) == ScopeFields(group[0], d);
    assert ValuesAt(scopeLogs, 2) == ValuesAt(records, 2);
  }
}

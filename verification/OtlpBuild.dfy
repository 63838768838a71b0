/** How a payload is built, member by member, and what a receiver reads out of it. */
module OtlpBuild {
  import opened Bytes
  import opened OtlpWire
  import opened OtlpJson
  import opened OtlpPayload
  import opened OtlpRoundTrip
  import opened OtlpReceived
  import Utf8

  method MakeUtf8Value(t: bytes) returns (json: Json)
    ensures json == TextJson(t)
  {
    var valid := Utf8.ToValidUtf8(t);
    json := Text(valid);
  }

  /** One attribute. 64-bit integers are strings in OTLP/JSON. */
  method AddOtlpKV(attrs: seq<Json>, kv: KV) returns (after: seq<Json>)
    ensures after == attrs + [KVJson(kv)]
  {
    var val;
    match kv.value {
      case Int(n) => val := [Member("intValue", Text(SignedDigits(n)))];
      case Double(bits) => val := [Member("doubleValue", Number(None, bits))];
      case Flag(b) => val := [Member("boolValue", Bool(b))];
      case Str(t) =>
        var text := MakeUtf8Value(t);
        val := [Member("stringValue", text)];
    }
    var key := MakeUtf8Value(kv.key);
    after := attrs + [Object([Member("key", key), Member("value", Object(val))])];
  }

  method BuildAttributes(kvs: seq<KV>) returns (json: Json)
    ensures json == KVsJson(kvs)
  {
    var attrs: seq<Json> := [];
    for i := 0 to |kvs|
      invariant |attrs| == i && forall k :: 0 <= k < i ==> attrs[k] == KVJson(kvs[k])
    {
      attrs := AddOtlpKV(attrs, kvs[i]);
    }
    json := Array(attrs);
    assert KVsJson(kvs).items == attrs;
  }

  /** One record, member by member. */
  method BuildRecord(r: Entry, doubleOf: int -> uint64) returns (json: Json)
    ensures json == RecordJson(r, doubleOf)
  {
    hide SignedDigits, KVsJson, TextJson;
    var members := [Member("timeUnixNano", Text(SignedDigits(if r.timeNs != 0 then r.timeNs else r.observedNs)))];
    members := members + [Member("observedTimeUnixNano", Text(SignedDigits(if r.observedNs != 0 then r.observedNs else r.timeNs)))];
    if r.severityNumber > 0 {
      members := members + [Member("severityNumber", Number(Some(r.severityNumber), doubleOf(r.severityNumber)))];
    }
    if r.severityText != [] {
      var text := MakeUtf8Value(r.severityText);
      members := members + [Member("severityText", text)];
    }
    var line := MakeUtf8Value(r.line);
    members := members + [Member("body", Object([Member("stringValue", line)]))];
    var attributes := BuildAttributes(r.attributes);
    members := members + [Member("attributes", attributes)];
    json := Object(members);
    assert json.members == RecordJson(r, doubleOf).members;
  }

  method BuildScope(first: Entry, d: Defaults) returns (json: Json)
    ensures json == ScopeJson(first, d)
  {
    if first.scopeName == [] {
      return Object([Member("name", Text(d.task)), Member("version", Text(d.version))]);
    }
    var name := MakeUtf8Value(first.scopeName);
    var members := [Member("name", name)];
    if first.scopeVersion != [] {
      var version := MakeUtf8Value(first.scopeVersion);
      members := members + [Member("version", version)];
    }
    json := Object(members);
  }

  /** The resource and the scope are those of the first record of the group, which are those of all of them. */
  method BuildGroup(group: seq<Entry>, d: Defaults, doubleOf: int -> uint64) returns (json: Json)
    requires group != []
    ensures json == GroupJson(group, d, doubleOf)
  {
    var resource := BuildAttributes(if group[0].resource == [] then d.resource else group[0].resource);
    var scope := BuildScope(group[0], d);
    var records: seq<Json> := [];
    for i := 0 to |group|
      invariant |records| == i && forall k :: 0 <= k < i ==> records[k] == RecordJson(group[k], doubleOf)
    {
      var r := BuildRecord(group[i], doubleOf);
      records := records + [r];
    }
    assert records == seq(|group|, i requires 0 <= i < |group| => RecordJson(group[i], doubleOf));
    json := Object([Member("resource", Object([Member("attributes", resource)])),
                    Member("scopeLogs", Array([Object([Member("scope", scope), Member("logRecords", Array(records))])]))]);
  }

  /** The payload of one push request. The converter takes it if and only if no time in it is negative, and then a receiver
      reads the groups of the batch out of it, each with its records in their order, and with the resource and the scope which
      its records have. */
  method BuildOtlpPayload(rs: seq<Entry>, d: Defaults, doubleOf: int -> uint64) returns (json: Json, groups: seq<seq<Entry>>)
    ensures IsPartition(groups, rs) && (forall i :: 0 <= i < |groups| ==> groups[i] != [] && AreAlike(groups[i]))
    ensures json == PayloadJson(groups, d, doubleOf)
    ensures FromJson(Request, json).Some? <==> forall i :: 0 <= i < |groups| ==> TimesFit(groups[i])
    ensures FromJson(Request, json).Some? ==>
              var received := GroupsOf(FromJson(Request, json).value);
              |received| == |groups| && forall i :: 0 <= i < |groups| ==> received[i] == SentGroup(groups[i], d)
  {
    hide FromJson, TimesFit, RecordJson, GroupsOf, SentGroup, PayloadFields, AreAlike;
    groups := Group(rs);
    FirstOfGroups(groups, rs);
    GroupsAreAlike(groups, rs);
    var resourceLogs: seq<Json> := [];
    for i := 0 to |groups|
      invariant |resourceLogs| == i && forall k :: 0 <= k < i ==> resourceLogs[k] == GroupJson(groups[k], d, doubleOf)
    {
      var g := BuildGroup(groups[i], d, doubleOf);
      resourceLogs := resourceLogs + [g];
    }
    assert resourceLogs == seq(|groups|, i requires 0 <= i < |groups| => GroupJson(groups[i], d, doubleOf));
    json := Object([Member("resourceLogs", Array(resourceLogs))]);
    PayloadConverts(groups, d, doubleOf);
    if forall i :: 0 <= i < |groups| ==> TimesFit(groups[i]) {
      FieldsAreSent(groups, d);
    }
  }

  /** All records have the scope and the resource of the first one. */
  ghost predicate AreAlike(group: seq<Entry>) {
    forall r :: r in group ==>
      r.scopeName == group[0].scopeName && r.scopeVersion == group[0].scopeVersion && r.resource == group[0].resource
  }

  lemma GroupsAreAlike(groups: seq<seq<Entry>>, rs: seq<Entry>)
    requires IsPartition(groups, rs)
    ensures forall i :: 0 <= i < |groups| ==> AreAlike(groups[i])
  {
    hide Keys, WithKey;
    FirstOfGroups(groups, rs);
    forall i | 0 <= i < |groups| ensures AreAlike(groups[i]) {
      OnlyOfKey(rs, Keys(rs)[i]);
    }
  }
}

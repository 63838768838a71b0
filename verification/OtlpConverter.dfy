/** The converter from OTLP/JSON to protobuf: one method for each message, written by hand. Each of them does what the schema
    says, and refuses what it does not say. */
module OtlpConverter {
  import opened Bytes
  import opened OtlpWire
  import opened OtlpJson
  import StateFile

  /** What is wrong, and with which member. */
  datatype Problem = NotAnObject(what: string) | UnknownMember(name: string, what: string) | NotAnArray(name: string)
                   | NotAString(name: string) | NotAFlag | NotANumber(name: string) | ManyValues(what: string) | NoKey

  /** A string which grows. */
  class Output {
    var data: bytes

    constructor ()
      ensures data == []
    {
      data := [];
    }

    method Push(b: byte)
      modifies this
      ensures data == old(data) + [b]
    {
      data := data + [b];
    }
  }

  class OtlpJsonToProtobuf {
    var problem: Option<Problem>

    constructor ()
      ensures problem == None
    {
      problem := None;
    }

    /** The request, or nothing and what is wrong with it. */
    method Convert(json: Json) returns (ok: bool, encoded: bytes)
      modifies this
      ensures ok <==> FromJson(Request, json).Some?
      ensures ok ==> encoded == Encode(FromJson(Request, json).value) && problem == None
      ensures !ok ==> encoded == [] && problem.Some?
    {
      problem := None;
      var out := new Output();
      ok := ConvertRequest(json, out);
      encoded := if ok then out.data else [];
      assert ok ==> [] + Encode(FromJson(Request, json).value) == Encode(FromJson(Request, json).value);
    }

    method Fail(p: Problem) returns (ok: bool)
      modifies this
      ensures !ok && problem == Some(p)
    {
      problem := Some(p);
      ok := false;
    }

    /* --- The protobuf writer --- */

    method AddVarint(out: Output, value: nat)
      modifies out
      ensures out.data == old(out.data) + Varint(value)
    {
      var v: nat := value;
      while v >= 128
        invariant out.data + Varint(v) == old(out.data) + Varint(value)
        decreases v
      {
        out.Push(v % 128 + 128);
        assert old(out.data) + Varint(value) == out.data[..|out.data| - 1] + ([v % 128 + 128] + Varint(v / 128));
        v := v / 128;
      }
      out.Push(v);
    }

    method AddTag(out: Output, field: nat, wireType: nat)
      requires field < 16 && wireType < 8
      modifies out
      ensures out.data == old(out.data) + Varint(field * 8 + wireType)
    {
      AddVarint(out, field * 8 + wireType);
    }

    method AddVarintField(out: Output, field: nat, value: uint64)
      requires field < 16
      modifies out
      ensures out.data == old(out.data) + (Varint(field * 8) + Varint(value))
    {
      AddTag(out, field, 0);
      AddVarint(out, value);
    }

    /** A field of wire type 1: its eight bytes decode to value. */
    method AddFixed64Field(out: Output, field: nat, value: uint64)
      requires field < 16
      modifies out
      ensures out.data == old(out.data) + EncodeField(Field(field, FixedValue(value)))
    {
      hide Varint, LittleEndian;
      AddTag(out, field, 1);
      AddFixed64(out, value);
    }

    method AddFixed64(out: Output, value: uint64)
      modifies out
      ensures out.data == old(out.data) + LittleEndian(value, 8)
    {
      var rest: nat := value;
      for i := 0 to 8
        invariant out.data + LittleEndian(rest, 8 - i) == old(out.data) + LittleEndian(value, 8)
      {
        ghost var before := out.data;
        out.Push(rest % 256);
        assert out.data + LittleEndian(rest / 256, 7 - i) == before + ([rest % 256] + LittleEndian(rest / 256, 7 - i));
        rest := rest / 256;
      }
    }

    /** A field of wire type 2: the length as a varint, and b. */
    method AddBytesField(out: Output, field: nat, b: bytes)
      requires field < 16
      modifies out
      ensures out.data == old(out.data) + EncodeField(Field(field, TextValue(b)))
    {
      AddTag(out, field, 2);
      AddVarint(out, |b|);
      out.data := out.data + b;
    }

    /* --- Reading the JSON --- */

    /** Accepts an object in which each name, up to a zero byte, is one of the schema. */
    method CheckObject(json: Json, what: string, kind: Kind) returns (ok: bool)
      modifies this
      ensures ok <==> OnlyKnown(kind, json)
      ensures ok ==> json.Object?
      ensures if ok then problem == old(problem) else problem.Some?
    {
      hide Schema, UpToNul;
      if !json.Object? {
        ok := Fail(NotAnObject(what));
        return;
      }
      for i := 0 to |json.members|
        invariant problem == old(problem)
        invariant forall j :: 0 <= j < i ==> IsKnown(Schema(kind), json.members[j].name)
      {
        var known := false;
        for k := 0 to |Schema(kind)|
          invariant known <==> exists m :: 0 <= m < k && UpToNul(json.members[i].name) == Schema(kind)[m].name
        {
          if UpToNul(json.members[i].name) == Schema(kind)[k].name {
            known := true;
          }
        }
        if !known {
          ok := Fail(UnknownMember(json.members[i].name, what));
          return;
        }
      }
      ok := true;
    }

    /** Only digits, and a minus before them if the number has a sign. */
    method IsDecimalText(t: bytes, signed: bool) returns (ok: bool)
      ensures ok <==> var d := if signed && t != [] && t[0] == MINUS then t[1..] else t; d != [] && StateFile.AllDigits(d)
    {
      var d: bytes := t;
      if signed && t != [] && t[0] == MINUS {
        d := t[1..];
      }
      if d == [] {
        return false;
      }
      for i := 0 to |d|
        invariant StateFile.AllDigits(d[..i])
      {
        if d[i] < StateFile.ZERO || d[i] > StateFile.ZERO + 9 {
          return false;
        }
        assert d[..i + 1] == d[..i] + [d[i]];
      }
      assert d[..|d|] == d;
      ok := true;
    }

    method GetUnsigned(json: Json, name: string) returns (ok: bool, n: uint64)
      modifies this
      ensures ok <==> GetUint64(json).Some?
      ensures if ok then GetUint64(json) == Some(n) && problem == old(problem) else problem.Some?
    {
      n := 0;
      if json.Number? && json.exact.Some? && json.exact.value >= 0 {
        return true, json.exact.value;
      }
      if json.Text? {
        var decimal := IsDecimalText(json.text, false);
        if decimal && StateFile.NumberValue(json.text) < UINT64_SPAN {
          return true, StateFile.NumberValue(json.text);
        }
      }
      ok := Fail(NotANumber(name));
    }

    method GetSigned(json: Json, name: string) returns (ok: bool, n: int64)
      modifies this
      ensures ok <==> GetInt64(json).Some?
      ensures if ok then GetInt64(json) == Some(n) && problem == old(problem) else problem.Some?
    {
      n := 0;
      if json.Number? && json.exact.Some? && json.exact.value < INT64_LIMIT {
        return true, json.exact.value;
      }
      if json.Text? {
        var decimal := IsDecimalText(json.text, true);
        if decimal {
          var number := SignedText(json.text);
          if number.Some? {
            return true, number.value;
          }
        }
      }
      ok := Fail(NotANumber(name));
    }

    /* --- Members: each of these writes the field with the index n of a message, if it is there --- */

    method AddTextMember(json: Json, kind: Kind, n: nat, out: Output, ghost before: bytes) returns (ok: bool)
      requires json.Object? && n < |Schema(kind)| && Schema(kind)[n].shape == TextShape
      requires Staged(kind, json, n, before, out.data)
      modifies this, out
      ensures StepDone(kind, json, n, before, ok, out.data, old(problem), problem)
    {
      hide Schema, Staged, Encode, EncodeField, AllFields;
      var spec := Schema(kind)[n];
      var i := IndexOf(json.members, spec.name);
      if i == |json.members| {
        StageAbsent(kind, json, n, before, out.data);
        return true;
      }
      var v := json.members[i].value;
      if !v.Text? {
        StageFails(kind, json, n);
        ok := Fail(NotAString(spec.name));
        return;
      }
      StageField(kind, json, n, before, out.data, TextValue(v.text));
      AddBytesField(out, spec.number, v.text);
      ok := true;
    }

    method AddTimeMember(json: Json, kind: Kind, n: nat, out: Output, ghost before: bytes) returns (ok: bool)
      requires json.Object? && n < |Schema(kind)| && Schema(kind)[n].shape == TimeShape
      requires Staged(kind, json, n, before, out.data)
      modifies this, out
      ensures StepDone(kind, json, n, before, ok, out.data, old(problem), problem)
    {
      hide Schema, Staged, Encode, EncodeField, AllFields, GetUint64;
      var spec := Schema(kind)[n];
      var i := IndexOf(json.members, spec.name);
      if i == |json.members| {
        StageAbsent(kind, json, n, before, out.data);
        return true;
      }
      var v := json.members[i].value;
      var number;
      ok, number := GetUnsigned(v, spec.name);
      if !ok {
        StageFails(kind, json, n);
        return;
      }
      StageField(kind, json, n, before, out.data, FixedValue(number));
      AddFixed64Field(out, spec.number, number);
    }

    method AddInt32Member(json: Json, kind: Kind, n: nat, out: Output, ghost before: bytes) returns (ok: bool)
      requires json.Object? && n < |Schema(kind)| && Schema(kind)[n].shape == Int32Shape
      requires Staged(kind, json, n, before, out.data)
      modifies this, out
      ensures StepDone(kind, json, n, before, ok, out.data, old(problem), problem)
    {
      hide Schema, Staged, Encode, AllFields;
      var spec := Schema(kind)[n];
      var i := IndexOf(json.members, spec.name);
      if i == |json.members| {
        StageAbsent(kind, json, n, before, out.data);
        return true;
      }
      var v := json.members[i].value;
      if !(v.Number? && v.exact.Some? && -INT32_LIMIT <= v.exact.value < INT32_LIMIT) {
        StageFails(kind, json, n);
        ok := Fail(NotANumber(spec.name));
        return;
      }
      StageField(kind, json, n, before, out.data, IntValue(v.exact.value));
      AddVarintField(out, spec.number, Unsigned(v.exact.value));
      ok := true;
    }

    method AddFlagMember(json: Json, kind: Kind, n: nat, out: Output, ghost before: bytes) returns (ok: bool)
      requires json.Object? && n < |Schema(kind)| && Schema(kind)[n].shape == FlagShape
      requires Staged(kind, json, n, before, out.data)
      modifies this, out
      ensures StepDone(kind, json, n, before, ok, out.data, old(problem), problem)
    {
      hide Schema, Staged, Encode, AllFields;
      var spec := Schema(kind)[n];
      var i := IndexOf(json.members, spec.name);
      if i == |json.members| {
        StageAbsent(kind, json, n, before, out.data);
        return true;
      }
      var v := json.members[i].value;
      if !v.Bool? {
        StageFails(kind, json, n);
        ok := Fail(NotAFlag);
        return;
      }
      StageField(kind, json, n, before, out.data, FlagValue(v.flag));
      AddVarintField(out, spec.number, if v.flag then 1 else 0);
      ok := true;
    }

    method AddInt64Member(json: Json, kind: Kind, n: nat, out: Output, ghost before: bytes) returns (ok: bool)
      requires json.Object? && n < |Schema(kind)| && Schema(kind)[n].shape == Int64Shape
      requires Staged(kind, json, n, before, out.data)
      modifies this, out
      ensures StepDone(kind, json, n, before, ok, out.data, old(problem), problem)
    {
      hide Schema, Staged, Encode, AllFields, GetInt64;
      var spec := Schema(kind)[n];
      var i := IndexOf(json.members, spec.name);
      if i == |json.members| {
        StageAbsent(kind, json, n, before, out.data);
        return true;
      }
      var v := json.members[i].value;
      var number;
      ok, number := GetSigned(v, spec.name);
      if !ok {
        StageFails(kind, json, n);
        return;
      }
      StageField(kind, json, n, before, out.data, IntValue(number));
      AddVarintField(out, spec.number, Unsigned(number));
    }

    method AddDoubleMember(json: Json, kind: Kind, n: nat, out: Output, ghost before: bytes) returns (ok: bool)
      requires json.Object? && n < |Schema(kind)| && Schema(kind)[n].shape == DoubleShape
      requires Staged(kind, json, n, before, out.data)
      modifies this, out
      ensures StepDone(kind, json, n, before, ok, out.data, old(problem), problem)
    {
      hide Schema, Staged, Encode, EncodeField, AllFields;
      var spec := Schema(kind)[n];
      var i := IndexOf(json.members, spec.name);
      if i == |json.members| {
        StageAbsent(kind, json, n, before, out.data);
        return true;
      }
      var v := json.members[i].value;
      if !v.Number? {
        StageFails(kind, json, n);
        ok := Fail(NotANumber(spec.name));
        return;
      }
      StageField(kind, json, n, before, out.data, FixedValue(v.bits));
      AddFixed64Field(out, spec.number, v.bits);
      ok := true;
    }

    /* --- Messages --- */

    method ConvertAnyValue(json: Json, what: string, out: Output) returns (ok: bool)
      modifies this, out
      ensures Converted(AnyValue, json, old(out.data), out.data, ok, old(problem), problem)
    {
      hide OnlyKnown, AllFields, Staged, Encode, IndexOf;
      ghost var before := out.data;
      ok := CheckObject(json, what, AnyValue);
      if !ok {
        return;
      }
      if |json.members| > 1 {
        ok := Fail(ManyValues(what));
        return;
      }
      StageStarts(AnyValue, json, before);
      ok := AddTextMember(json, AnyValue, 0, out, before);
      if !ok {
        return;
      }
      ok := AddFlagMember(json, AnyValue, 1, out, before);
      if !ok {
        return;
      }
      ok := AddInt64Member(json, AnyValue, 2, out, before);
      if !ok {
        return;
      }
      ok := AddDoubleMember(json, AnyValue, 3, out, before);
      if ok {
        StageEnds(AnyValue, json, before, out.data);
      }
    }

    /** A member whose value is an OTLP value: the body of a record, and the value of an attribute. */
    method AddValueMember(json: Json, kind: Kind, n: nat, out: Output, ghost before: bytes) returns (ok: bool)
      requires json.Object? && n < |Schema(kind)| && Schema(kind)[n].shape == One(AnyValue)
      requires Staged(kind, json, n, before, out.data)
      modifies this, out
      ensures StepDone(kind, json, n, before, ok, out.data, old(problem), problem)
    {
      hide Schema, Staged, Encode, AllFields, FromJson;
      var spec := Schema(kind)[n];
      var i := IndexOf(json.members, spec.name);
      if i == |json.members| {
        StageAbsent(kind, json, n, before, out.data);
        return true;
      }
      var any := new Output();
      ok := ConvertAnyValue(json.members[i].value, spec.name, any);
      PresentMessage(spec, json, AnyValue);
      if !ok {
        StageFails(kind, json, n);
        return;
      }
      StageMessage(kind, json, n, before, out.data, AnyValue, any.data);
      AddBytesField(out, spec.number, any.data);
    }

    method ConvertKeyValue(json: Json, out: Output) returns (ok: bool)
      modifies this, out
      ensures Converted(KeyValue, json, old(out.data), out.data, ok, old(problem), problem)
    {
      hide OnlyKnown, AllFields, Staged, Encode, IndexOf;
      ghost var before := out.data;
      ok := CheckObject(json, "attribute", KeyValue);
      if !ok {
        return;
      }
      if IndexOf(json.members, "key") == |json.members| {
        ok := Fail(NoKey);
        return;
      }
      StageStarts(KeyValue, json, before);
      ok := AddTextMember(json, KeyValue, 0, out, before);
      if !ok {
        return;
      }
      ok := AddValueMember(json, KeyValue, 1, out, before);
      if ok {
        StageEnds(KeyValue, json, before, out.data);
      }
    }

    method ConvertAttributes(json: Json, field: nat, out: Output) returns (ok: bool)
      requires field < 16
      modifies this, out
      ensures ItemsDone(KeyValue, field, json, old(out.data), ok, out.data, old(problem), problem)
    {
      hide FromJson, Encode, EncodeField, ItemsStaged;
      if !json.Array? {
        ok := Fail(NotAnArray("attributes"));
        return;
      }
      ghost var start := out.data;
      ItemsStart(KeyValue, field, json.items, start);
      for i := 0 to |json.items|
        invariant ItemsStaged(KeyValue, field, json.items, i, start, out.data) && problem == old(problem)
      {
        var item := new Output();
        ok := ConvertKeyValue(json.items[i], item);
        if !ok {
          ItemFails(KeyValue, field, json.items, i);
          return;
        }
        ItemStep(KeyValue, field, json.items, i, start, out.data, item.data);
        AddBytesField(out, field, item.data);
      }
      ok := true;
    }

    /** The attributes of a record or of a resource. */
    method AddAttributesMember(json: Json, kind: Kind, n: nat, out: Output, ghost before: bytes) returns (ok: bool)
      requires json.Object? && n < |Schema(kind)| && Schema(kind)[n].shape == Many(KeyValue)
      requires Staged(kind, json, n, before, out.data)
      modifies this, out
      ensures StepDone(kind, json, n, before, ok, out.data, old(problem), problem)
    {
      hide Schema, Staged, Encode, AllFields, FromJson, ItemsStaged;
      var spec := Schema(kind)[n];
      var i := IndexOf(json.members, spec.name);
      if i == |json.members| {
        StageAbsent(kind, json, n, before, out.data);
        return true;
      }
      ghost var start := out.data;
      PresentItems(spec, json, KeyValue);
      ok := ConvertAttributes(json.members[i].value, spec.number, out);
      if ok {
        StageItems(kind, json, n, before, start, out.data, KeyValue);
      } else {
        StageFails(kind, json, n);
      }
    }

    method ConvertLogRecord(json: Json, out: Output) returns (ok: bool)
      modifies this, out
      ensures Converted(LogRecord, json, old(out.data), out.data, ok, old(problem), problem)
    {
      hide OnlyKnown, AllFields, Staged, Encode, IndexOf;
      ghost var before := out.data;
      ok := CheckObject(json, "logRecord", LogRecord);
      if !ok {
        return;
      }
      StageStarts(LogRecord, json, before);
      ok := AddTimeMember(json, LogRecord, 0, out, before);
      if !ok {
        return;
      }
      ok := AddInt32Member(json, LogRecord, 1, out, before);
      if !ok {
        return;
      }
      ok := AddTextMember(json, LogRecord, 2, out, before);
      if !ok {
        return;
      }
      ok := AddValueMember(json, LogRecord, 3, out, before);
      if !ok {
        return;
      }
      ok := AddAttributesMember(json, LogRecord, 4, out, before);
      if !ok {
        return;
      }
      ok := AddTimeMember(json, LogRecord, 5, out, before);
      if ok {
        StageEnds(LogRecord, json, before, out.data);
      }
    }

    method ConvertScope(json: Json, out: Output) returns (ok: bool)
      modifies this, out
      ensures Converted(Scope, json, old(out.data), out.data, ok, old(problem), problem)
    {
      hide OnlyKnown, AllFields, Staged, Encode, IndexOf;
      ghost var before := out.data;
      ok := CheckObject(json, "scope", Scope);
      if !ok {
        return;
      }
      StageStarts(Scope, json, before);
      ok := AddTextMember(json, Scope, 0, out, before);
      if !ok {
        return;
      }
      ok := AddTextMember(json, Scope, 1, out, before);
      if ok {
        StageEnds(Scope, json, before, out.data);
      }
    }

    /** The scope of a group. */
    method AddScopeMember(json: Json, kind: Kind, n: nat, out: Output, ghost before: bytes) returns (ok: bool)
      requires json.Object? && n < |Schema(kind)| && Schema(kind)[n].shape == One(Scope)
      requires Staged(kind, json, n, before, out.data)
      modifies this, out
      ensures StepDone(kind, json, n, before, ok, out.data, old(problem), problem)
    {
      hide Schema, Staged, Encode, AllFields, FromJson;
      var spec := Schema(kind)[n];
      var i := IndexOf(json.members, spec.name);
      if i == |json.members| {
        StageAbsent(kind, json, n, before, out.data);
        return true;
      }
      var message := new Output();
      ok := ConvertScope(json.members[i].value, message);
      PresentMessage(spec, json, Scope);
      if !ok {
        StageFails(kind, json, n);
        return;
      }
      StageMessage(kind, json, n, before, out.data, Scope, message.data);
      AddBytesField(out, spec.number, message.data);
    }

    /** The records of a group, in their order. */
    method AddLogRecords(json: Json, kind: Kind, n: nat, out: Output, ghost before: bytes) returns (ok: bool)
      requires json.Object? && n < |Schema(kind)| && Schema(kind)[n].shape == Many(LogRecord)
      requires Staged(kind, json, n, before, out.data)
      modifies this, out
      ensures StepDone(kind, json, n, before, ok, out.data, old(problem), problem)
    {
      hide Schema, Staged, Encode, EncodeField, AllFields, FromJson, ItemsStaged;
      var spec := Schema(kind)[n];
      var at := IndexOf(json.members, spec.name);
      if at == |json.members| {
        StageAbsent(kind, json, n, before, out.data);
        return true;
      }
      var v := json.members[at].value;
      PresentItems(spec, json, LogRecord);
      if !v.Array? {
        StageFails(kind, json, n);
        ok := Fail(NotAnArray(spec.name));
        return;
      }
      ghost var start := out.data;
      ItemsStart(LogRecord, spec.number, v.items, start);
      for i := 0 to |v.items|
        invariant ItemsStaged(LogRecord, spec.number, v.items, i, start, out.data) && problem == old(problem)
      {
        var item := new Output();
        ok := ConvertLogRecord(v.items[i], item);
        if !ok {
          ItemFails(LogRecord, spec.number, v.items, i);
          StageFails(kind, json, n);
          return;
        }
        ItemStep(LogRecord, spec.number, v.items, i, start, out.data, item.data);
        AddBytesField(out, spec.number, item.data);
      }
      StageItems(kind, json, n, before, start, out.data, LogRecord);
      ok := true;
    }

    method ConvertScopeLogs(json: Json, out: Output) returns (ok: bool)
      modifies this, out
      ensures Converted(ScopeLogs, json, old(out.data), out.data, ok, old(problem), problem)
    {
      hide OnlyKnown, AllFields, Staged, Encode, IndexOf;
      ghost var before := out.data;
      ok := CheckObject(json, "scopeLogs", ScopeLogs);
      if !ok {
        return;
      }
      StageStarts(ScopeLogs, json, before);
      ok := AddScopeMember(json, ScopeLogs, 0, out, before);
      if !ok {
        return;
      }
      ok := AddLogRecords(json, ScopeLogs, 1, out, before);
      if ok {
        StageEnds(ScopeLogs, json, before, out.data);
      }
    }

    method ConvertResource(json: Json, out: Output) returns (ok: bool)
      modifies this, out
      ensures Converted(Resource, json, old(out.data), out.data, ok, old(problem), problem)
    {
      hide OnlyKnown, AllFields, Staged, Encode, IndexOf;
      ghost var before := out.data;
      ok := CheckObject(json, "resource", Resource);
      if !ok {
        return;
      }
      StageStarts(Resource, json, before);
      ok := AddAttributesMember(json, Resource, 0, out, before);
      if ok {
        StageEnds(Resource, json, before, out.data);
      }
    }

    /** The resource of a group. */
    method AddResourceMember(json: Json, kind: Kind, n: nat, out: Output, ghost before: bytes) returns (ok: bool)
      requires json.Object? && n < |Schema(kind)| && Schema(kind)[n].shape == One(Resource)
      requires Staged(kind, json, n, before, out.data)
      modifies this, out
      ensures StepDone(kind, json, n, before, ok, out.data, old(problem), problem)
    {
      hide Schema, Staged, Encode, AllFields, FromJson;
      var spec := Schema(kind)[n];
      var i := IndexOf(json.members, spec.name);
      if i == |json.members| {
        StageAbsent(kind, json, n, before, out.data);
        return true;
      }
      var message := new Output();
      ok := ConvertResource(json.members[i].value, message);
      PresentMessage(spec, json, Resource);
      if !ok {
        StageFails(kind, json, n);
        return;
      }
      StageMessage(kind, json, n, before, out.data, Resource, message.data);
      AddBytesField(out, spec.number, message.data);
    }

    /** The scopes of a resource, in their order. */
    method AddScopeLogs(json: Json, kind: Kind, n: nat, out: Output, ghost before: bytes) returns (ok: bool)
      requires json.Object? && n < |Schema(kind)| && Schema(kind)[n].shape == Many(ScopeLogs)
      requires Staged(kind, json, n, before, out.data)
      modifies this, out
      ensures StepDone(kind, json, n, before, ok, out.data, old(problem), problem)
    {
      hide Schema, Staged, Encode, EncodeField, AllFields, FromJson, ItemsStaged;
      var spec := Schema(kind)[n];
      var at := IndexOf(json.members, spec.name);
      if at == |json.members| {
        StageAbsent(kind, json, n, before, out.data);
        return true;
      }
      var v := json.members[at].value;
      PresentItems(spec, json, ScopeLogs);
      if !v.Array? {
        StageFails(kind, json, n);
        ok := Fail(NotAnArray(spec.name));
        return;
      }
      ghost var start := out.data;
      ItemsStart(ScopeLogs, spec.number, v.items, start);
      for i := 0 to |v.items|
        invariant ItemsStaged(ScopeLogs, spec.number, v.items, i, start, out.data) && problem == old(problem)
      {
        var item := new Output();
        ok := ConvertScopeLogs(v.items[i], item);
        if !ok {
          ItemFails(ScopeLogs, spec.number, v.items, i);
          StageFails(kind, json, n);
          return;
        }
        ItemStep(ScopeLogs, spec.number, v.items, i, start, out.data, item.data);
        AddBytesField(out, spec.number, item.data);
      }
      StageItems(kind, json, n, before, start, out.data, ScopeLogs);
      ok := true;
    }

    method ConvertResourceLogs(json: Json, out: Output) returns (ok: bool)
      modifies this, out
      ensures Converted(ResourceLogs, json, old(out.data), out.data, ok, old(problem), problem)
    {
      hide OnlyKnown, AllFields, Staged, Encode, IndexOf;
      ghost var before := out.data;
      ok := CheckObject(json, "resourceLogs", ResourceLogs);
      if !ok {
        return;
      }
      StageStarts(ResourceLogs, json, before);
      ok := AddResourceMember(json, ResourceLogs, 0, out, before);
      if !ok {
        return;
      }
      ok := AddScopeLogs(json, ResourceLogs, 1, out, before);
      if ok {
        StageEnds(ResourceLogs, json, before, out.data);
      }
    }

    /** The resources of a request, in their order. */
    method AddResourceLogs(json: Json, kind: Kind, n: nat, out: Output, ghost before: bytes) returns (ok: bool)
      requires json.Object? && n < |Schema(kind)| && Schema(kind)[n].shape == Many(ResourceLogs)
      requires Staged(kind, json, n, before, out.data)
      modifies this, out
      ensures StepDone(kind, json, n, before, ok, out.data, old(problem), problem)
    {
      hide Schema, Staged, Encode, EncodeField, AllFields, FromJson, ItemsStaged;
      var spec := Schema(kind)[n];
      var at := IndexOf(json.members, spec.name);
      if at == |json.members| {
        StageAbsent(kind, json, n, before, out.data);
        return true;
      }
      var v := json.members[at].value;
      PresentItems(spec, json, ResourceLogs);
      if !v.Array? {
        StageFails(kind, json, n);
        ok := Fail(NotAnArray(spec.name));
        return;
      }
      ghost var start := out.data;
      ItemsStart(ResourceLogs, spec.number, v.items, start);
      for i := 0 to |v.items|
        invariant ItemsStaged(ResourceLogs, spec.number, v.items, i, start, out.data) && problem == old(problem)
      {
        var item := new Output();
        ok := ConvertResourceLogs(v.items[i], item);
        if !ok {
          ItemFails(ResourceLogs, spec.number, v.items, i);
          StageFails(kind, json, n);
          return;
        }
        ItemStep(ResourceLogs, spec.number, v.items, i, start, out.data, item.data);
        AddBytesField(out, spec.number, item.data);
      }
      StageItems(kind, json, n, before, start, out.data, ResourceLogs);
      ok := true;
    }

    method ConvertRequest(json: Json, out: Output) returns (ok: bool)
      modifies this, out
      ensures Converted(Request, json, old(out.data), out.data, ok, old(problem), problem)
    {
      hide OnlyKnown, AllFields, Staged, Encode, IndexOf;
      ghost var before := out.data;
      ok := CheckObject(json, "request", Request);
      if !ok {
        return;
      }
      StageStarts(Request, json, before);
      ok := AddResourceLogs(json, Request, 0, out, before);
      if ok {
        StageEnds(Request, json, before, out.data);
      }
    }
  }

  /** The first n fields of the message were written behind what was there. */
  ghost predicate Staged(kind: Kind, json: Json, n: nat, before: bytes, now: bytes)
    requires json.Object? && n <= |Schema(kind)|
  {
    AllFields(Schema(kind)[..n], json).Some? && now == before + Encode(AllFields(Schema(kind)[..n], json).value)
  }

  /** One more field was written, or the message is refused. */
  ghost predicate StepDone(kind: Kind, json: Json, n: nat, before: bytes, ok: bool, now: bytes, p: Option<Problem>, p': Option<Problem>)
    requires json.Object? && n < |Schema(kind)|
  {
    if ok then Staged(kind, json, n + 1, before, now) && p' == p else AllFields(Schema(kind), json) == None && p'.Some?
  }

  lemma StageStarts(kind: Kind, json: Json, before: bytes)
    requires json.Object?
    ensures Staged(kind, json, 0, before, before)
  {
    assert Schema(kind)[..0] == [] && before + [] == before;
  }

  lemma StageAbsent(kind: Kind, json: Json, n: nat, before: bytes, now: bytes)
    requires json.Object? && n < |Schema(kind)| && Staged(kind, json, n, before, now)
    requires IndexOf(json.members, Schema(kind)[n].name) == |json.members|
    ensures Staged(kind, json, n + 1, before, now)
  {
    hide Schema, IndexOf, Staged;
    StageFields(kind, json, n, before, now, []);
    assert now + [] == now;
  }

  lemma StageFields(kind: Kind, json: Json, n: nat, before: bytes, now: bytes, fields: seq<Field>)
    requires json.Object? && n < |Schema(kind)| && Staged(kind, json, n, before, now)
    requires Present(Schema(kind)[n], json) == Some(fields)
    ensures Staged(kind, json, n + 1, before, now + Encode(fields))
  {
    hide Schema, IndexOf, Encode, Present;
    var specs := Schema(kind)[..n + 1];
    assert specs[..n] == Schema(kind)[..n] && specs[n] == Schema(kind)[n];
    EncodeConcat(AllFields(specs[..n], json).value, fields);
    assert before + Encode(AllFields(specs[..n], json).value) + Encode(fields)
           == before + (Encode(AllFields(specs[..n], json).value) + Encode(fields));
  }

  lemma StageField(kind: Kind, json: Json, n: nat, before: bytes, now: bytes, v: Value)
    requires json.Object? && n < |Schema(kind)| && Staged(kind, json, n, before, now)
    requires Present(Schema(kind)[n], json) == Some([Field(Schema(kind)[n].number, v)])
    ensures Staged(kind, json, n + 1, before, now + EncodeField(Field(Schema(kind)[n].number, v)))
  {
    hide Schema, Staged, Present, EncodeField;
    var f := Field(Schema(kind)[n].number, v);
    assert [f][1..] == [] && EncodeField(f) + [] == EncodeField(f);
    assert Encode([f]) == EncodeField(f);
    StageFields(kind, json, n, before, now, [f]);
  }

  lemma StageFails(kind: Kind, json: Json, n: nat)
    requires json.Object? && n < |Schema(kind)| && Present(Schema(kind)[n], json) == None
    ensures AllFields(Schema(kind), json) == None
  {
    hide Schema, Present;
    NoneStays(Schema(kind), json, n);
  }

  lemma {:induction false} NoneStays(specs: seq<FieldSpec>, json: Json, n: nat)
    requires json.Object? && n < |specs| && Present(specs[n], json) == None
    ensures AllFields(specs, json) == None
  {
    hide Present;
    if n < |specs| - 1 {
      NoneStays(specs[..|specs| - 1], json, n);
    }
  }

  /** The bytes of the message behind what was there, or a problem. */
  ghost predicate Converted(kind: Kind, json: Json, before: bytes, now: bytes, ok: bool, p: Option<Problem>, p': Option<Problem>) {
    && ok == FromJson(kind, json).Some?
    && if ok then now == before + Encode(FromJson(kind, json).value) && p' == p else p'.Some?
  }

  lemma StageEnds(kind: Kind, json: Json, before: bytes, now: bytes)
    requires json.Object? && Staged(kind, json, |Schema(kind)|, before, now) && OnlyKnown(kind, json)
    requires kind == AnyValue ==> |json.members| <= 1
    requires kind == KeyValue ==> IndexOf(json.members, "key") < |json.members|
    ensures FromJson(kind, json).Some? && now == before + Encode(FromJson(kind, json).value)
  {
    hide Schema, OnlyKnown, AllFields, Encode, IndexOf;
    assert Schema(kind)[..|Schema(kind)|] == Schema(kind);
  }

  /** A message as a field is its bytes as a string. */
  lemma StageMessage(kind: Kind, json: Json, n: nat, before: bytes, now: bytes, k: Kind, b: bytes)
    requires json.Object? && n < |Schema(kind)| && Staged(kind, json, n, before, now) && Schema(kind)[n].shape == One(k)
    requires IndexOf(json.members, Schema(kind)[n].name) < |json.members|
    requires var v := json.members[IndexOf(json.members, Schema(kind)[n].name)].value;
             FromJson(k, v).Some? && b == [] + Encode(FromJson(k, v).value)
    ensures Staged(kind, json, n + 1, before, now + EncodeField(Field(Schema(kind)[n].number, TextValue(b))))
  {
    hide Schema, Staged, FromJson, IndexOf, Encode;
    var v := json.members[IndexOf(json.members, Schema(kind)[n].name)].value;
    assert b == Encode(FromJson(k, v).value);
    PresentMessage(Schema(kind)[n], json, k);
    MessageAsText(Schema(kind)[n].number, FromJson(k, v).value);
    StageField(kind, json, n, before, now, MessageValue(FromJson(k, v).value));
  }

  /* --- Arrays --- */

  ghost predicate ItemsStaged(kind: Kind, number: nat, items: seq<Json>, i: nat, start: bytes, now: bytes)
    requires i <= |items|
  {
    ItemFields(kind, number, items[..i]).Some? && now == start + Encode(ItemFields(kind, number, items[..i]).value)
  }

  ghost predicate ItemsDone(kind: Kind, number: nat, json: Json, start: bytes, ok: bool, now: bytes, p: Option<Problem>, p': Option<Problem>) {
    if ok then json.Array? && ItemsStaged(kind, number, json.items, |json.items|, start, now) && p' == p
    else (json.Array? ==> ItemFields(kind, number, json.items) == None) && p'.Some?
  }

  lemma ItemsStart(kind: Kind, number: nat, items: seq<Json>, start: bytes)
    ensures ItemsStaged(kind, number, items, 0, start, start)
  {
    assert items[..0] == [] && start + [] == start;
  }

  lemma ItemStep(kind: Kind, number: nat, items: seq<Json>, i: nat, start: bytes, now: bytes, b: bytes)
    requires i < |items| && ItemsStaged(kind, number, items, i, start, now)
    requires FromJson(kind, items[i]).Some? && b == [] + Encode(FromJson(kind, items[i]).value)
    ensures ItemsStaged(kind, number, items, i + 1, start, now + EncodeField(Field(number, TextValue(b))))
  {
    hide FromJson, Encode, EncodeField;
    var f := Field(number, MessageValue(FromJson(kind, items[i]).value));
    assert b == Encode(FromJson(kind, items[i]).value);
    MessageAsText(number, FromJson(kind, items[i]).value);
    OneField(f);
    assert items[..i + 1][..i] == items[..i] && items[..i + 1][i] == items[i];
    assert ItemFields(kind, number, items[..i + 1]) == Then(ItemFields(kind, number, items[..i]), Some([f]));
    EncodeConcat(ItemFields(kind, number, items[..i]).value, [f]);
    assert start + Encode(ItemFields(kind, number, items[..i]).value) + EncodeField(f)
           == start + (Encode(ItemFields(kind, number, items[..i]).value) + EncodeField(f));
  }

  lemma MessageAsText(number: nat, fields: seq<Field>)
    ensures EncodeField(Field(number, MessageValue(fields))) == EncodeField(Field(number, TextValue(Encode(fields))))
  {
    hide Encode, Varint;
  }

  lemma PresentItems(spec: FieldSpec, json: Json, k: Kind)
    requires json.Object? && spec.shape == Many(k) && IndexOf(json.members, spec.name) < |json.members|
    ensures var v := json.members[IndexOf(json.members, spec.name)].value;
            Present(spec, json) == if v.Array? then ItemFields(k, spec.number, v.items) else None
  {
    hide FromJson, IndexOf;
    var v := json.members[IndexOf(json.members, spec.name)].value;
    assert Present(spec, json) == MemberFields(spec, v);
  }

  lemma StageItems(kind: Kind, json: Json, n: nat, before: bytes, start: bytes, now: bytes, k: Kind)
    requires json.Object? && n < |Schema(kind)| && Staged(kind, json, n, before, start) && Schema(kind)[n].shape == Many(k)
    requires IndexOf(json.members, Schema(kind)[n].name) < |json.members|
    requires var v := json.members[IndexOf(json.members, Schema(kind)[n].name)].value;
             v.Array? && ItemsStaged(k, Schema(kind)[n].number, v.items, |v.items|, start, now)
    ensures Staged(kind, json, n + 1, before, now)
  {
    hide Schema, Staged, FromJson, IndexOf, Encode, ItemFields;
    var v := json.members[IndexOf(json.members, Schema(kind)[n].name)].value;
    assert v.items[..|v.items|] == v.items;
    PresentItems(Schema(kind)[n], json, k);
    StageFields(kind, json, n, before, start, ItemFields(k, Schema(kind)[n].number, v.items).value);
  }

  lemma PresentMessage(spec: FieldSpec, json: Json, k: Kind)
    requires json.Object? && spec.shape == One(k) && IndexOf(json.members, spec.name) < |json.members|
    ensures var r := FromJson(k, json.members[IndexOf(json.members, spec.name)].value);
            Present(spec, json) == if r.Some? then Some([Field(spec.number, MessageValue(r.value))]) else None
  {
    hide FromJson, IndexOf;
    var v := json.members[IndexOf(json.members, spec.name)].value;
    assert Present(spec, json) == MemberFields(spec, v) == Single(spec.number, MessageOf(k, v));
  }

  lemma OneField(f: Field)
    ensures Encode([f]) == EncodeField(f)
  {
    hide EncodeField;
    assert [f][1..] == [] && EncodeField(f) + [] == EncodeField(f);
  }
}

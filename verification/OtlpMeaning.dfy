/** What the converter keeps of a JSON tree: two trees which it takes give the same message if and only if they say the same,
    and a member says something if and only if it is looked up. */
module OtlpMeaning {
  import opened Bytes
  import opened OtlpWire
  import opened OtlpJson
  import StateFile

  /* --- When two trees say the same --- */

  /** The integer of a number or of a decimal text, whatever its size. */
  function IntegerOf(v: Json): Option<int> {
    match v
    case Number(Some(n), _) => Some(n)
    case Text(t) =>
      if t != [] && t[0] == MINUS && StateFile.AllDigits(t[1..]) then Some(0 - StateFile.NumberValue(t[1..]))
      else if StateFile.AllDigits(t) then Some(StateFile.NumberValue(t))
      else None
    case _ => None
  }

  /** Two objects of this kind say the same under each name of the schema. */
  ghost predicate Alike(kind: Kind, a: Json, b: Json)
    decreases a, 1
  {
    && a.Object? && b.Object?
    && forall k :: 0 <= k < |Schema(kind)| ==> AlikeAt(Schema(kind)[k], a, b)
  }

  /** Under one name: both have the same value, or nothing is said by either. */
  ghost predicate AlikeAt(spec: FieldSpec, a: Json, b: Json)
    requires a.Object? && b.Object?
    decreases a, 0
  {
    var i, j := IndexOf(a.members, spec.name), IndexOf(b.members, spec.name);
    if i < |a.members| && j < |b.members| then
      assert a.members[i] < a;
      SameValue(spec.shape, a.members[i].value, b.members[j].value)
    else
      SaysNothing(spec.shape, a.members, i) && SaysNothing(spec.shape, b.members, j)
  }

  /** There is no member, or it is a list of no messages. */
  predicate SaysNothing(shape: Shape, members: seq<Member>, i: nat)
    requires i <= |members|
  {
    i == |members| || (shape.Many? && members[i].value == Array([]))
  }

  /** The same text, flag, integer, double or message, or a list of the same messages in the same order. How a number is written
      does not matter. */
  ghost predicate SameValue(shape: Shape, v: Json, w: Json)
    decreases v, 2
  {
    match shape
    case TextShape => v.Text? && w == v
    case FlagShape => v.Bool? && w == v
    case Int64Shape | Int32Shape | TimeShape => IntegerOf(v).Some? && IntegerOf(w) == IntegerOf(v)
    case DoubleShape => v.Number? && w.Number? && w.bits == v.bits
    case One(k) => Alike(k, v, w)
    case Many(k) => v.Array? && w.Array? && |v.items| == |w.items| && forall i :: 0 <= i < |v.items| ==> Alike(k, v.items[i], w.items[i])
  }

  /** Two trees which are taken give the same message if and only if they say the same: no text, no flag, no number and no
      item of a list which is looked up is lost or changed, at any depth. */
  lemma {:induction false} SameMessageIff(kind: Kind, a: Json, b: Json)
    requires FromJson(kind, a).Some? && FromJson(kind, b).Some?
    ensures FromJson(kind, a) == FromJson(kind, b) <==> Alike(kind, a, b)
    decreases a, 1
  {
    hide Schema, AlikeAt, AllFields;
    Taken(kind, a);
    Taken(kind, b);
    assert Schema(kind)[..|Schema(kind)|] == Schema(kind);
    AllFieldsSameIff(kind, |Schema(kind)|, a, b);
  }

  /** The main result: the bytes of two trees are the same if and only if the trees say the same. */
  lemma SameBytesIff(kind: Kind, a: Json, b: Json)
    requires FromJson(kind, a).Some? && |Encode(FromJson(kind, a).value)| < UINT64_SPAN
    requires FromJson(kind, b).Some? && |Encode(FromJson(kind, b).value)| < UINT64_SPAN
    ensures Encode(FromJson(kind, a).value) == Encode(FromJson(kind, b).value) <==> Alike(kind, a, b)
  {
    hide FromJson, Alike, Encode, Decode;
    ConversionComesBack(kind, a);
    ConversionComesBack(kind, b);
    SameMessageIff(kind, a, b);
  }

  lemma {:induction false} AllFieldsSameIff(kind: Kind, n: nat, a: Json, b: Json)
    requires a.Object? && b.Object? && n <= |Schema(kind)|
    requires AllFields(Schema(kind)[..n], a).Some? && AllFields(Schema(kind)[..n], b).Some?
    ensures AllFields(Schema(kind)[..n], a) == AllFields(Schema(kind)[..n], b)
            <==> forall k :: 0 <= k < n ==> AlikeAt(Schema(kind)[k], a, b)
    decreases a, 0, n
  {
    hide Schema, AlikeAt, Present;
    if n > 0 {
      var specs, spec := Schema(kind)[..n], Schema(kind)[n - 1];
      assert specs[..n - 1] == Schema(kind)[..n - 1];
      AllFieldsSameIff(kind, n - 1, a, b);
      PresentSameIff(spec, a, b);
      NumbersBelow(kind, n - 1, a);
      NumbersBelow(kind, n - 1, b);
      NumbersOfPresent(spec, a);
      NumbersOfPresent(spec, b);
      BlocksSame(AllFields(specs[..n - 1], a).value, Present(spec, a).value,
                 AllFields(specs[..n - 1], b).value, Present(spec, b).value, spec.number);
    }
  }

  /** The fields of one number come behind those with lower numbers. */
  lemma BlocksSame(a: seq<Field>, p: seq<Field>, b: seq<Field>, q: seq<Field>, number: nat)
    requires forall i :: 0 <= i < |a| ==> a[i].number < number
    requires forall i :: 0 <= i < |b| ==> b[i].number < number
    requires forall i :: 0 <= i < |p| ==> p[i].number == number
    requires forall i :: 0 <= i < |q| ==> q[i].number == number
    ensures a + p == b + q <==> a == b && p == q
  {
    if a + p == b + q {
      LowerInFront(a, p, number);
      LowerInFront(b, q, number);
      assert |a| < |a + p| ==> (a + p)[|a|].number >= number;
      assert |b| < |b + q| ==> (b + q)[|b|].number >= number;
      assert a == (a + p)[..|a|] && b == (b + q)[..|b|] && p == (a + p)[|a|..] && q == (b + q)[|b|..];
    }
  }

  lemma LowerInFront(a: seq<Field>, p: seq<Field>, number: nat)
    requires forall i :: 0 <= i < |a| ==> a[i].number < number
    requires forall i :: 0 <= i < |p| ==> p[i].number == number
    ensures forall i :: 0 <= i < |a + p| ==> ((a + p)[i].number < number <==> i < |a|)
  {
  }

  lemma {:induction false} NumbersBelow(kind: Kind, n: nat, json: Json)
    requires json.Object? && n < |Schema(kind)| && AllFields(Schema(kind)[..n], json).Some?
    ensures forall i :: 0 <= i < |AllFields(Schema(kind)[..n], json).value| ==>
              AllFields(Schema(kind)[..n], json).value[i].number < Schema(kind)[n].number
    decreases n
  {
    hide Schema, Present;
    if n > 0 {
      assert Schema(kind)[..n][..n - 1] == Schema(kind)[..n - 1];
      NumbersBelow(kind, n - 1, json);
      NumbersOfPresent(Schema(kind)[n - 1], json);
    }
  }

  lemma NumbersOfPresent(spec: FieldSpec, json: Json)
    requires json.Object? && Present(spec, json).Some?
    ensures forall i :: 0 <= i < |Present(spec, json).value| ==> Present(spec, json).value[i].number == spec.number
  {
    hide FromJson, Scalar, ItemFields;
    var i := IndexOf(json.members, spec.name);
    if i < |json.members| && spec.shape.Many? {
      NumbersOfItems(spec.shape.kind, spec.number, json.members[i].value.items);
    }
  }

  lemma {:induction false} NumbersOfItems(kind: Kind, number: nat, items: seq<Json>)
    requires ItemFields(kind, number, items).Some?
    ensures |ItemFields(kind, number, items).value| == |items|
    ensures forall i :: 0 <= i < |items| ==> ItemFields(kind, number, items).value[i].number == number
  {
    hide FromJson;
    if items != [] {
      NumbersOfItems(kind, number, items[..|items| - 1]);
    }
  }

  lemma {:induction false} PresentSameIff(spec: FieldSpec, a: Json, b: Json)
    requires a.Object? && b.Object? && Present(spec, a).Some? && Present(spec, b).Some?
    ensures Present(spec, a) == Present(spec, b) <==> AlikeAt(spec, a, b)
    decreases a, 0, 0
  {
    hide MemberFields, SameValue;
    var i, j := IndexOf(a.members, spec.name), IndexOf(b.members, spec.name);
    if i < |a.members| {
      assert a.members[i] < a;
      NoFieldsIff(spec, a.members[i].value);
    }
    if j < |b.members| {
      NoFieldsIff(spec, b.members[j].value);
    }
    if i < |a.members| && j < |b.members| {
      MemberSameIff(spec, a.members[i].value, b.members[j].value);
    }
  }

  lemma NoFieldsIff(spec: FieldSpec, v: Json)
    requires MemberFields(spec, v).Some?
    ensures MemberFields(spec, v) == Some([]) <==> spec.shape.Many? && v == Array([])
  {
    hide FromJson, Scalar, ItemFields;
    if spec.shape.Many? {
      NumbersOfItems(spec.shape.kind, spec.number, v.items);
    }
  }

  lemma {:induction false} MemberSameIff(spec: FieldSpec, v: Json, w: Json)
    requires MemberFields(spec, v).Some? && MemberFields(spec, w).Some?
    ensures MemberFields(spec, v) == MemberFields(spec, w) <==> SameValue(spec.shape, v, w)
    decreases v, 3
  {
    hide FromJson, Scalar, ItemFields, IntegerOf, Alike;
    match spec.shape
    case One(k) => SameMessageIff(k, v, w);
    case Many(k) => ItemsSameIff(k, spec.number, v.items, w.items);
    case _ => ScalarSameIff(spec.shape, v, w);
  }

  lemma {:induction false} ItemsSameIff(kind: Kind, number: nat, x: seq<Json>, y: seq<Json>)
    requires ItemFields(kind, number, x).Some? && ItemFields(kind, number, y).Some?
    ensures ItemFields(kind, number, x) == ItemFields(kind, number, y)
            <==> |x| == |y| && forall i :: 0 <= i < |x| ==> Alike(kind, x[i], y[i])
    decreases x, 3
  {
    hide FromJson, Alike;
    NumbersOfItems(kind, number, x);
    NumbersOfItems(kind, number, y);
    if x != [] && |x| == |y| {
      var n := |x| - 1;
      ItemsSameIff(kind, number, x[..n], y[..n]);
      SameMessageIff(kind, x[n], y[n]);
      LastSame(ItemFields(kind, number, x[..n]).value, Field(number, MessageOf(kind, x[n]).value),
               ItemFields(kind, number, y[..n]).value, Field(number, MessageOf(kind, y[n]).value));
    }
  }

  lemma LastSame(a: seq<Field>, f: Field, b: seq<Field>, g: Field)
    ensures a + [f] == b + [g] <==> a == b && f == g
  {
    if a + [f] == b + [g] {
      assert |a + [f]| == |b + [g]|;
      assert (a + [f])[..|a|] == a && (b + [g])[..|b|] == b && (a + [f])[|a|] == f && (b + [g])[|b|] == g;
    }
  }

  lemma ScalarSameIff(shape: Shape, v: Json, w: Json)
    requires Scalar(shape, v).Some? && Scalar(shape, w).Some?
    ensures Scalar(shape, v) == Scalar(shape, w) <==> SameValue(shape, v, w)
  {
    hide StateFile.NumberValue, StateFile.AllDigits;
    IntegerIs(v);
    IntegerIs(w);
  }

  /** What is taken as a number is the integer which is written there. */
  lemma IntegerIs(v: Json)
    ensures GetInt64(v).Some? ==> IntegerOf(v) == Some(GetInt64(v).value)
    ensures GetUint64(v).Some? ==> IntegerOf(v) == Some(GetUint64(v).value)
  {
    hide StateFile.NumberValue;
    assert !StateFile.IsDigit(MINUS);
  }

  /* --- No member is lost --- */

  /** The tree with another value in its member i. */
  function Replaced(json: Json, i: nat, v: Json): Json
    requires json.Object? && i < |json.members|
  {
    Object(json.members[i := Member(json.members[i].name, v)])
  }

  /** The message depends on the value of the member i. */
  ghost predicate Counts(kind: Kind, json: Json, i: nat)
    requires json.Object? && i < |json.members|
  {
    exists v: Json :: FromJson(kind, Replaced(json, i, v)) != FromJson(kind, json)
  }

  /** The message depends on every member of an object which is taken, if and only if no name is there twice and none has a
      zero byte in it. Otherwise a value is passed over without an error, whatever it is: the one of the second member of a
      name, or of one whose name only starts with a known name and a zero byte. */
  lemma NoMemberIsLostIff(kind: Kind, json: Json)
    requires FromJson(kind, json).Some?
    ensures Distinct(json.members) && (forall i :: 0 <= i < |json.members| ==> ZERO_CHAR !in json.members[i].name)
            <==> forall i :: 0 <= i < |json.members| ==> Counts(kind, json, i)
  {
    hide Counts, IsFound, Distinct;
    Taken(kind, json);
    AllAreFoundIff(kind, json);
    forall i | 0 <= i < |json.members| ensures Counts(kind, json, i) <==> IsFound(kind, json.members, i) {
      CountsIffFound(kind, json, i);
    }
  }

  lemma Taken(kind: Kind, json: Json)
    requires FromJson(kind, json).Some?
    ensures OnlyKnown(kind, json) && AllFields(Schema(kind), json) == FromJson(kind, json)
  {
  }

  lemma CountsIffFound(kind: Kind, json: Json, i: nat)
    requires FromJson(kind, json).Some? && i < |json.members|
    ensures Counts(kind, json, i) <==> IsFound(kind, json.members, i)
  {
    hide FromJson, IsFound;
    Taken(kind, json);
    if IsFound(kind, json.members, i) {
      FoundIsRead(kind, json, i);
      assert FromJson(kind, Replaced(json, i, Null)) != FromJson(kind, json);
    } else {
      forall v: Json ensures FromJson(kind, Replaced(json, i, v)) == FromJson(kind, json) {
        NotFoundIsNotRead(kind, json, i, v);
      }
    }
  }

  lemma {:induction false} NamesStay(m: seq<Member>, i: nat, v: Json, name: string)
    requires i < |m|
    ensures IndexOf(m[i := Member(m[i].name, v)], name) == IndexOf(m, name)
  {
    var changed := m[i := Member(m[i].name, v)];
    var j, k := IndexOf(m, name), IndexOf(changed, name);
    assert j < |m| ==> changed[j].name == name;
    assert k < |m| ==> m[k].name == name;
  }

  /** No member is null: a null is refused where it is read. */
  lemma FoundIsRead(kind: Kind, json: Json, i: nat)
    requires json.Object? && i < |json.members| && IsFound(kind, json.members, i)
    ensures FromJson(kind, Replaced(json, i, Null)) == None
  {
    hide Schema, OnlyKnown, AllFields, MemberFields;
    var k :| 0 <= k < |Schema(kind)| && Schema(kind)[k].name == json.members[i].name;
    NamesStay(json.members, i, Null, json.members[i].name);
    NullIsRefused(Schema(kind)[k]);
    OneIsRefused(Schema(kind), k, Replaced(json, i, Null));
  }

  lemma NullIsRefused(spec: FieldSpec)
    ensures MemberFields(spec, Null) == None
  {
    hide Schema;
  }

  lemma {:induction false} OneIsRefused(specs: seq<FieldSpec>, k: nat, json: Json)
    requires json.Object? && k < |specs| && Present(specs[k], json) == None
    ensures AllFields(specs, json) == None
  {
    hide Present;
    if k < |specs| - 1 {
      OneIsRefused(specs[..|specs| - 1], k, json);
    }
  }

  lemma NotFoundIsNotRead(kind: Kind, json: Json, i: nat, v: Json)
    requires json.Object? && i < |json.members| && !IsFound(kind, json.members, i)
    ensures FromJson(kind, Replaced(json, i, v)) == FromJson(kind, json)
  {
    hide Schema, AllFields, OnlyKnown;
    NamesStay(json.members, i, v, "key");
    KnownStays(kind, json, i, v);
    forall k | 0 <= k < |Schema(kind)| ensures IndexOf(json.members, Schema(kind)[k].name) != i {
    }
    RestIsTheSame(Schema(kind), json, i, v);
  }

  lemma KnownStays(kind: Kind, json: Json, i: nat, v: Json)
    requires json.Object? && i < |json.members|
    ensures OnlyKnown(kind, Replaced(json, i, v)) == OnlyKnown(kind, json)
  {
    hide Schema, IsKnown;
    var changed := Replaced(json, i, v);
    assert forall j :: 0 <= j < |json.members| ==> changed.members[j].name == json.members[j].name;
  }

  lemma {:induction false} RestIsTheSame(specs: seq<FieldSpec>, json: Json, i: nat, v: Json)
    requires json.Object? && i < |json.members| && forall k :: 0 <= k < |specs| ==> IndexOf(json.members, specs[k].name) != i
    ensures AllFields(specs, Replaced(json, i, v)) == AllFields(specs, json)
  {
    hide MemberFields, IndexOf;
    if specs != [] {
      RestIsTheSame(specs[..|specs| - 1], json, i, v);
      NamesStay(json.members, i, v, specs[|specs| - 1].name);
    }
  }

  /** If no name of a is there twice or has a zero byte in it, trees which say the same have the same members, but for lists of no
      messages: each member of a is in b with the same value. */
  lemma EveryMemberIsSaid(kind: Kind, a: Json, b: Json, i: nat)
    requires FromJson(kind, a).Some? && Alike(kind, a, b) && i < |a.members|
    requires Distinct(a.members) && forall m :: 0 <= m < |a.members| ==> ZERO_CHAR !in a.members[m].name
    ensures var name := a.members[i].name;
            exists k :: 0 <= k < |Schema(kind)| && Schema(kind)[k].name == name
              && var j := IndexOf(b.members, name);
                 if j < |b.members| then SameValue(Schema(kind)[k].shape, a.members[i].value, b.members[j].value)
                 else Schema(kind)[k].shape.Many? && a.members[i].value == Array([])
  {
    hide Schema, FromJson, Distinct, SameValue, IndexOf;
    Taken(kind, a);
    AllAreFoundIff(kind, a);
    assert IsFound(kind, a.members, i);
    var k :| 0 <= k < |Schema(kind)| && Schema(kind)[k].name == a.members[i].name;
    assert AlikeAt(Schema(kind)[k], a, b);
  }

  /** Every member of an object whose names are known is found under its name, if and only if no name is there twice and none has
      a zero byte in it. */
  lemma AllAreFoundIff(kind: Kind, json: Json)
    requires OnlyKnown(kind, json)
    ensures Distinct(json.members) && (forall i :: 0 <= i < |json.members| ==> ZERO_CHAR !in json.members[i].name)
            <==> forall i :: 0 <= i < |json.members| ==> IsFound(kind, json.members, i)
  {
    hide Schema, UpToNul;
    var m := json.members;
    if Distinct(m) && forall i :: 0 <= i < |m| ==> ZERO_CHAR !in m[i].name {
      forall i | 0 <= i < |m| ensures IsFound(kind, m, i) {
        assert IsKnown(Schema(kind), m[i].name);
        IndexIs(m, i);
      }
    }
    if forall i :: 0 <= i < |m| ==> IsFound(kind, m, i) {
      forall i | 0 <= i < |m| ensures ZERO_CHAR !in m[i].name && IndexOf(m, m[i].name) == i {
        assert IsFound(kind, m, i);
        var k :| 0 <= k < |Schema(kind)| && Schema(kind)[k].name == m[i].name;
        NamesArePlain(kind, k);
      }
    }
  }

  /** The member is what is looked up under a name of the schema. */
  ghost predicate IsFound(kind: Kind, members: seq<Member>, i: nat)
    requires i < |members|
  {
    IndexOf(members, members[i].name) == i && exists k :: 0 <= k < |Schema(kind)| && Schema(kind)[k].name == members[i].name
  }

  predicate IsPlain(s: string) {
    forall i :: 0 <= i < |s| ==> s[i] != ZERO_CHAR
  }

  lemma NamesArePlain(kind: Kind, k: nat)
    requires k < |Schema(kind)|
    ensures ZERO_CHAR !in Schema(kind)[k].name
  {
    hide IsPlain;
    LiteralsArePlain();
    assert IsPlain(Schema(kind)[k].name) by {
      match kind
      case LogRecord => assert k < 6;
      case AnyValue => assert k < 4;
      case _ =>
    }
    PlainHasNoZero(Schema(kind)[k].name);
  }

  lemma PlainHasNoZero(s: string)
    ensures IsPlain(s) ==> ZERO_CHAR !in s
  {
  }

  lemma LiteralsArePlain()
    ensures IsPlain("resourceLogs") && IsPlain("resource") && IsPlain("scopeLogs") && IsPlain("attributes") && IsPlain("scope")
    ensures IsPlain("logRecords") && IsPlain("name") && IsPlain("version") && IsPlain("timeUnixNano") && IsPlain("severityNumber")
    ensures IsPlain("severityText") && IsPlain("body") && IsPlain("observedTimeUnixNano") && IsPlain("key") && IsPlain("value")
    ensures IsPlain("stringValue") && IsPlain("boolValue") && IsPlain("intValue") && IsPlain("doubleValue")
  {
  }

  /** A scope with two names is accepted, and the second one is lost, whatever its value is. */
  lemma SecondNameIsLost(text: bytes, v: Json)
    ensures FromJson(Scope, Object([Member("name", Text(text)), Member("name", v)])) == Some([Field(1, TextValue(text))])
  {
    hide UpToNul, IndexOf;
    var m := [Member("name", Text(text)), Member("name", v)];
    var json, specs := Object(m), Schema(Scope);
    assert UpToNul("name") == "name" by {
      LiteralsArePlain();
      PlainHasNoZero("name");
    }
    assert UpToNul(m[0].name) == specs[0].name && UpToNul(m[1].name) == specs[0].name;
    assert OnlyKnown(Scope, json);
    assert IndexOf(m, "name") == 0;
    assert |"name"| != |"version"|;
    assert IndexOf(m, "version") == 2;
    assert Present(specs[0], json) == Some([Field(1, TextValue(text))]) && Present(specs[1], json) == Some([]);
    assert specs[..2] == specs && specs[..2][..1] == specs[..1] && specs[..1][..0] == [];
    assert specs[..1][|specs[..1]| - 1] == specs[0] && AllFields([], json) == Some([]);
    assert AllFields(specs[..1], json) == Then(AllFields(specs[..1][..0], json), Present(specs[0], json));
    assert [] + [Field(1, TextValue(text))] + [] == [Field(1, TextValue(text))];
  }

  /** A scope whose only member has such a name is accepted, and nothing of it is left. */
  lemma NameWithZeroIsLost(v: Json)
    ensures FromJson(Scope, Object([Member("name" + [ZERO_CHAR], v)])) == Some([])
  {
    var n := "name" + [ZERO_CHAR];
    ZeroEnds("name", []) by {
      LiteralsArePlain();
      PlainHasNoZero("name");
    }
    assert "name" + [ZERO_CHAR] + [] == n;
    assert |n| == 5 && |"name"| == 4 && |"version"| == 7;
    UnnamedMemberIsLost(n, v);
  }

  lemma UnnamedMemberIsLost(n: string, v: Json)
    requires UpToNul(n) == "name" && n != "name" && n != "version"
    ensures FromJson(Scope, Object([Member(n, v)])) == Some([])
  {
    hide UpToNul, IndexOf;
    var m, json := [Member(n, v)], Object([Member(n, v)]);
    var specs := Schema(Scope);
    assert UpToNul(m[0].name) == specs[0].name;
    assert OnlyKnown(Scope, json);
    NotFound(m[0], "name");
    NotFound(m[0], "version");
    assert specs[..2] == specs && specs[..2][..1] == specs[..1] && specs[..1][..0] == [];
    ThenNothing();
    assert Present(specs[0], json) == Some([]) && Present(specs[1], json) == Some([]);
    assert specs[..1][|specs[..1]| - 1] == specs[0] && AllFields([], json) == Some([]);
    assert AllFields(specs[..1], json) == Then(AllFields(specs[..1][..0], json), Present(specs[0], json));
  }

  lemma ThenNothing()
    ensures Then(Some([]), Some([])) == Some([])
  {
    var none: seq<Field> := [];
    assert none + none == none;
  }

  lemma NotFound(m: Member, name: string)
    requires m.name != name
    ensures IndexOf([m], name) == 1
  {
    assert [m][1..] == [];
  }

  lemma {:induction false} ZeroEnds(s: string, t: string)
    requires ZERO_CHAR !in s
    ensures UpToNul(s + [ZERO_CHAR] + t) == s
  {
    if s != [] {
      ZeroEnds(s[1..], t);
      assert (s + [ZERO_CHAR] + t)[1..] == s[1..] + [ZERO_CHAR] + t;
    }
  }
}

/** The record of a mail: setters in any order, and one line of JSON which a parser reads back. */
module MailLogs {
  import opened Bytes
  import opened MailJson
  import StateFile

  function Ascii(s: string): (b: bytes)
    ensures |b| == |s|
    ensures forall i :: 0 <= i < |s| ==> b[i] == (s[i] as int) % 256
  {
    seq(|s|, i requires 0 <= i < |s| => (s[i] as int) % 256)
  }

  /** A key with its values, in the order in which the keys were used first. */
  datatype Entry = Entry(key: bytes, values: seq<bytes>)

  datatype Recipient = Recipient(address: bytes, status: bytes, code: nat, enhancedStatus: bytes, text: bytes)

  datatype Attachment = Attachment(name: bytes, size: nat, sha256: bytes, contentType: bytes)

  predicate DistinctKeys(list: seq<Entry>) {
    forall i, j :: 0 <= i < j < |list| ==> list[i].key != list[j].key
  }

  predicate HasKey(list: seq<Entry>, key: bytes) {
    exists i :: 0 <= i < |list| && list[i].key == key
  }

  /** The list after a value of a key was set or added: only the values of that key change, and a new key comes last. */
  predicate Changed(before: seq<Entry>, after: seq<Entry>, key: bytes, value: bytes, add: bool) {
    if HasKey(before, key) then
      && |after| == |before|
      && forall i :: 0 <= i < |before| ==>
           after[i] == if before[i].key == key then Entry(key, (if add then before[i].values else []) + [value]) else before[i]
    else after == before + [Entry(key, [value])]
  }

  /** Looks the key up. Found: replaces its values by one value, or adds the value. Not found: a new entry at the end. */
  method PutValue(list: seq<Entry>, key: bytes, value: bytes, add: bool) returns (after: seq<Entry>)
    requires DistinctKeys(list)
    ensures DistinctKeys(after) && Changed(list, after, key, value, add)
  {
    for i := 0 to |list|
      invariant forall j :: 0 <= j < i ==> list[j].key != key
    {
      if list[i].key == key {
        after := list[i := Entry(key, (if add then list[i].values else []) + [value])];
        return;
      }
    }
    after := list + [Entry(key, [value])];
  }

  /* --- Keys --- */

  /** The keys of the attributes which come last, in their order. */
  function TailKeys(): (keys: seq<bytes>)
    ensures |keys| == 12
  {
    [Ascii("email.size_bytes"), Ascii("email.attachments"), Ascii("email.envelope.recipients"),
     Ascii("client.port"), Ascii("server.port"), Ascii("network.local.port"), Ascii("network.peer.port"),
     Ascii("email.smtp.response.code"), Ascii("email.signed"), Ascii("email.encrypted"), Ascii("tls.established"),
     Ascii("email.virus.checked")]
  }

  lemma TailKeysDiffer()
    ensures forall i, j :: 0 <= i < j < 12 ==> TailKeys()[i] != TailKeys()[j]
  {
    var k := TailKeys();
    assert |k[0]| == 16 && |k[1]| == 17 && |k[2]| == 25 && |k[3]| == 11 && |k[4]| == 11 && |k[5]| == 18 && |k[6]| == 17;
    assert |k[7]| == 24 && |k[8]| == 12 && |k[9]| == 15 && |k[10]| == 15 && |k[11]| == 19;
    assert k[1][0] == 101 && k[6][0] == 110 && k[3][0] == 99 && k[4][0] == 115 && k[9][0] == 101 && k[10][0] == 116;
  }

  const HEADER_PREFIX: string := "email.header."

  /** Lower case, and everything else which is not a letter or a digit becomes an underscore. */
  function NormalizedByte(c: byte): byte {
    if 97 <= c <= 122 then c else if 65 <= c <= 90 then c + 32 else if 48 <= c <= 57 || c == 95 then c else 95
  }

  /** The name of the attribute of a header. */
  predicate IsHeaderKey(key: bytes, name: bytes) {
    && |key| == |HEADER_PREFIX| + |name| && key[..|HEADER_PREFIX|] == Ascii(HEADER_PREFIX)
    && forall i :: 0 <= i < |name| ==> key[|HEADER_PREFIX| + i] == NormalizedByte(name[i])
  }

  method NormalizeHeaderName(name: bytes) returns (result: bytes)
    ensures |result| == |name| && forall i :: 0 <= i < |name| ==> result[i] == NormalizedByte(name[i])
  {
    result := [];
    for i := 0 to |name|
      invariant |result| == i && forall j :: 0 <= j < i ==> result[j] == NormalizedByte(name[j])
    {
      result := result + [NormalizedByte(name[i])];
    }
  }

  /** Lower case letters, digits and the underscore. */
  predicate IsNameByte(c: byte) {
    97 <= c <= 122 || 48 <= c <= 57 || c == 95
  }

  /** The same byte, or the same letter in upper and in lower case. */
  predicate SameLetter(c: byte, d: byte) {
    c == d || (65 <= c <= 90 && d == c + 32) || (65 <= d <= 90 && c == d + 32)
  }

  /** The name of an attribute keeps what such a name can have, and has nothing else. */
  lemma HeaderKeyIs(key: bytes, name: bytes)
    requires IsHeaderKey(key, name)
    ensures forall i :: |HEADER_PREFIX| <= i < |key| ==> IsNameByte(key[i])
    ensures (forall i :: 0 <= i < |name| ==> IsNameByte(name[i])) ==> key == Ascii(HEADER_PREFIX) + name
  {
    hide Ascii;
    var n := |HEADER_PREFIX|;
    forall i | n <= i < |key| ensures IsNameByte(key[i]) {
      assert key[n + (i - n)] == NormalizedByte(name[i - n]);
    }
    if forall i :: 0 <= i < |name| ==> IsNameByte(name[i]) {
      SameKey(key, Ascii(HEADER_PREFIX) + name, n);
    }
  }

  /** It does not depend on the case of the letters of the header. */
  lemma HeaderCaseIsIgnored(key: bytes, name: bytes, other: bytes, otherName: bytes)
    requires IsHeaderKey(key, name) && IsHeaderKey(other, otherName) && |name| == |otherName|
    requires forall i :: 0 <= i < |name| ==> SameLetter(name[i], otherName[i])
    ensures key == other
  {
    hide Ascii, NormalizedByte, SameLetter;
    var n := |HEADER_PREFIX|;
    forall i | n <= i < |key| ensures key[i] == other[i] {
      assert key[n + (i - n)] == NormalizedByte(name[i - n]) && other[n + (i - n)] == NormalizedByte(otherName[i - n]);
      SameNormalized(name[i - n], otherName[i - n]);
    }
    SameKey(key, other, n);
  }

  lemma SameNormalized(c: byte, d: byte)
    requires SameLetter(c, d)
    ensures NormalizedByte(c) == NormalizedByte(d)
  {
  }

  lemma SameKey(a: bytes, b: bytes, n: nat)
    requires |a| == |b| >= n && a[..n] == b[..n] && forall i :: n <= i < |a| ==> a[i] == b[i]
    ensures a == b
  {
    assert forall i :: 0 <= i < n ==> a[i] == a[..n][i] == b[..n][i] == b[i];
  }

  /** No header has the name of one of the last attributes. */
  lemma HeaderIsNoTailKey(name: bytes)
    ensures Ascii(HEADER_PREFIX) + name !in TailKeys()
  {
    hide Ascii;
    OtherKey(name, "email.size_bytes");
    OtherKey(name, "email.attachments");
    OtherKey(name, "email.envelope.recipients");
    OtherKey(name, "client.port");
    OtherKey(name, "server.port");
    OtherKey(name, "network.local.port");
    OtherKey(name, "network.peer.port");
    OtherKey(name, "email.smtp.response.code");
    OtherKey(name, "email.signed");
    OtherKey(name, "email.encrypted");
    OtherKey(name, "tls.established");
    OtherKey(name, "email.virus.checked");
  }

  /** A key which does not start with e, or whose seventh letter is no h. */
  lemma OtherKey(name: bytes, key: string)
    requires |key| > 6 && (key[0] != 'e' || key[6] != 'h') && key[0] as int < 256 && key[6] as int < 256
    ensures Ascii(HEADER_PREFIX) + name != Ascii(key)
  {
    var h := Ascii(HEADER_PREFIX) + name;
    assert h[0] == 101 && h[6] == 104;
    assert Ascii(key)[0] == key[0] as int && Ascii(key)[6] == key[6] as int;
  }

  lemma EnvelopeFromIsNoTailKey()
    ensures Ascii("email.envelope.from.address") !in TailKeys()
  {
    var h, k := Ascii("email.envelope.from.address"), TailKeys();
    assert |h| == 27 && forall i :: 0 <= i < |k| ==> |k[i]| != 27;
  }

  /* --- Trees --- */

  function TextPair(key: string, text: bytes): seq<Pair> {
    if text == [] then [] else [Pair(Ascii(key), Str(text))]
  }

  function NumberPair(key: bytes, n: nat): seq<Pair> {
    if n == 0 then [] else [Pair(key, Num(n))]
  }

  function IsRecipientKey(key: bytes): bool {
    key == Ascii("email.to.addresses") || key == Ascii("email.cc.addresses") || key == Ascii("email.bcc.addresses")
  }

  function Texts(values: seq<bytes>): seq<Node> {
    if values == [] then [] else Texts(values[..|values| - 1]) + [Str(values[|values| - 1])]
  }

  /** One value is a string, several are an array, and recipients are always an array. */
  function EntryNode(e: Entry): Node {
    if |e.values| == 1 && !IsRecipientKey(e.key) then Str(e.values[0]) else Arr(Texts(e.values))
  }

  function EntryPairs(list: seq<Entry>): (pairs: seq<Pair>)
    ensures |pairs| == |list|
    ensures forall i :: 0 <= i < |list| ==> pairs[i] == Pair(list[i].key, EntryNode(list[i]))
  {
    if list == [] then [] else
    EntryPairs(list[..|list| - 1]) + [Pair(list[|list| - 1].key, EntryNode(list[|list| - 1]))]
  }

  function RecipientNode(r: Recipient): Node {
    Obj([Pair(Ascii("address"), Str(r.address))] + TextPair("status", r.status) + NumberPair(Ascii("code"), r.code)
        + TextPair("enhanced_status_code", r.enhancedStatus) + TextPair("text", r.text))
  }

  function AttachmentNode(a: Attachment): Node {
    Obj([Pair(Ascii("name"), Str(a.name))] + NumberPair(Ascii("size_bytes"), a.size) + TextPair("sha256", a.sha256)
        + TextPair("content_type", a.contentType))
  }

  /* --- Joining with commas --- */

  function Joined(parts: seq<bytes>): bytes {
    if parts == [] then [] else if |parts| == 1 then parts[0] else parts[0] + [COMMA] + Joined(parts[1..])
  }

  lemma {:induction false} JoinedAppend(parts: seq<bytes>, x: bytes)
    ensures Joined(parts + [x]) == if parts == [] then x else Joined(parts) + [COMMA] + x
  {
    if parts == [] {
      assert parts + [x] == [x];
    } else {
      assert (parts + [x])[1..] == parts[1..] + [x];
      JoinedAppend(parts[1..], x);
      if |parts| > 1 {
        Associative(parts[0] + [COMMA], Joined(parts[1..]), [COMMA]);
        Associative(parts[0] + [COMMA], Joined(parts[1..]) + [COMMA], x);
      }
    }
  }

  method Join(parts: seq<bytes>) returns (text: bytes)
    ensures text == Joined(parts)
  {
    text := [];
    for i := 0 to |parts|
      invariant text == Joined(parts[..i])
    {
      JoinedAppend(parts[..i], parts[i]);
      assert parts[..i + 1] == parts[..i] + [parts[i]];
      if i > 0 {
        text := text + [COMMA];
      }
      text := text + parts[i];
    }
    assert parts[..|parts|] == parts;
  }

  function PairTexts(pairs: seq<Pair>): (t: seq<bytes>)
    ensures |t| == |pairs|
  {
    if pairs == [] then [] else [PrintPair(pairs[0])] + PairTexts(pairs[1..])
  }

  function ItemTexts(items: seq<Node>): (t: seq<bytes>)
    ensures |t| == |items|
  {
    if items == [] then [] else [Print(items[0])] + ItemTexts(items[1..])
  }

  lemma {:induction false} PairTextsConcat(a: seq<Pair>, b: seq<Pair>)
    ensures PairTexts(a + b) == PairTexts(a) + PairTexts(b)
  {
    hide PrintPair;
    if a == [] {
      assert a + b == b;
    } else {
      assert (a + b)[1..] == a[1..] + b;
      PairTextsConcat(a[1..], b);
    }
  }

  lemma {:induction false} ItemTextsConcat(a: seq<Node>, b: seq<Node>)
    ensures ItemTexts(a + b) == ItemTexts(a) + ItemTexts(b)
  {
    hide Print;
    if a == [] {
      assert a + b == b;
    } else {
      assert (a + b)[1..] == a[1..] + b;
      ItemTextsConcat(a[1..], b);
    }
  }

  lemma {:induction false} PairsAreJoined(pairs: seq<Pair>)
    ensures PrintPairs(pairs) == Joined(PairTexts(pairs))
  {
    hide PrintPair;
    if |pairs| > 1 {
      PairsAreJoined(pairs[1..]);
    }
  }

  lemma {:induction false} ItemsAreJoined(items: seq<Node>)
    ensures PrintItems(items) == Joined(ItemTexts(items))
  {
    hide Print;
    if |items| > 1 {
      ItemsAreJoined(items[1..]);
    }
  }

  lemma PairAppended(pairs: seq<Pair>, p: Pair)
    ensures PairTexts(pairs + [p]) == PairTexts(pairs) + [PrintPair(p)]
    ensures PrintPairs(pairs + [p]) == if pairs == [] then PrintPair(p) else PrintPairs(pairs) + [COMMA] + PrintPair(p)
  {
    hide PrintPair, PrintPairs, Joined;
    PairTextsConcat(pairs, [p]);
    assert [p][1..] == [] && PairTexts([p]) == [PrintPair(p)];
    PairsAreJoined(pairs + [p]);
    PairsAreJoined(pairs);
    JoinedAppend(PairTexts(pairs), PrintPair(p));
  }

  /* --- Printing piece by piece --- */

  method AppendJsonString(text: bytes) returns (json: bytes)
    ensures json == PrintString(text)
  {
    hide EscapedByte;
    json := [QUOTE];
    for i := 0 to |text|
      invariant json + Escaped(text[i..]) == [QUOTE] + Escaped(text)
    {
      assert text[i..][1..] == text[i + 1..];
      Associative(json, EscapedByte(text[i]), Escaped(text[i + 1..]));
      json := json + EscapedByte(text[i]);
    }
    assert text[|text|..] == [] && json + [] == json;
    json := json + [QUOTE];
  }

  /** The next member of an object which is written, if there is something to write. */
  method AddMember(json: bytes, ghost pairs: seq<Pair>, key: bytes, value: Node, text: bytes) returns (after: bytes)
    requires pairs != [] && json == [OPEN_OBJECT] + PrintPairs(pairs) && text == Print(value)
    ensures after == [OPEN_OBJECT] + PrintPairs(pairs + [Pair(key, value)])
  {
    hide PrintString, PrintPairs, Print;
    PairAppended(pairs, Pair(key, value));
    Associative([OPEN_OBJECT], PrintPairs(pairs), [COMMA]);
    Associative([OPEN_OBJECT], PrintPairs(pairs) + [COMMA], PrintPair(Pair(key, value)));
    after := json + [COMMA] + (PrintString(key) + [COLON] + text);
  }

  method AddTextMember(json: bytes, ghost pairs: seq<Pair>, key: string, text: bytes) returns (after: bytes, ghost pairs': seq<Pair>)
    requires pairs != [] && json == [OPEN_OBJECT] + PrintPairs(pairs)
    ensures pairs' == pairs + TextPair(key, text) && after == [OPEN_OBJECT] + PrintPairs(pairs')
  {
    hide PrintPairs, PrintString;
    after, pairs' := json, pairs + TextPair(key, text);
    assert text == [] ==> pairs' == pairs;
    if text != [] {
      var value := AppendJsonString(text);
      after := AddMember(json, pairs, Ascii(key), Str(text), value);
    }
  }

  method AddNumberMember(json: bytes, ghost pairs: seq<Pair>, key: string, n: nat) returns (after: bytes, ghost pairs': seq<Pair>)
    requires pairs != [] && json == [OPEN_OBJECT] + PrintPairs(pairs)
    ensures pairs' == pairs + NumberPair(Ascii(key), n) && after == [OPEN_OBJECT] + PrintPairs(pairs')
  {
    hide PrintPairs, PrintString, StateFile.Digits;
    after, pairs' := json, pairs + NumberPair(Ascii(key), n);
    assert n == 0 ==> pairs' == pairs;
    if n != 0 {
      after := AddMember(json, pairs, Ascii(key), Num(n), StateFile.Digits(n));
    }
  }

  method FirstMember(key: string, text: bytes) returns (json: bytes, ghost pairs: seq<Pair>)
    ensures pairs == [Pair(Ascii(key), Str(text))] && json == [OPEN_OBJECT] + PrintPairs(pairs)
  {
    hide PrintString;
    pairs := [Pair(Ascii(key), Str(text))];
    var k := AppendJsonString(Ascii(key));
    var v := AppendJsonString(text);
    assert Print(Str(text)) == v && PrintPair(pairs[0]) == k + [COLON] + v && PrintPairs(pairs) == PrintPair(pairs[0]);
    json := [OPEN_OBJECT] + (k + [COLON] + v);
  }

  method AppendRecipient(r: Recipient) returns (json: bytes)
    ensures json == Print(RecipientNode(r))
  {
    hide PrintPairs, PrintString, TextPair, NumberPair, Ascii;
    ghost var pairs;
    json, pairs := FirstMember("address", r.address);
    json, pairs := AddTextMember(json, pairs, "status", r.status);
    json, pairs := AddNumberMember(json, pairs, "code", r.code);
    json, pairs := AddTextMember(json, pairs, "enhanced_status_code", r.enhancedStatus);
    json, pairs := AddTextMember(json, pairs, "text", r.text);
    json := json + [CLOSE_OBJECT];
  }

  method AppendAttachment(a: Attachment) returns (json: bytes)
    ensures json == Print(AttachmentNode(a))
  {
    hide PrintPairs, PrintString, TextPair, NumberPair, Ascii;
    ghost var pairs;
    json, pairs := FirstMember("name", a.name);
    json, pairs := AddNumberMember(json, pairs, "size_bytes", a.size);
    json, pairs := AddTextMember(json, pairs, "sha256", a.sha256);
    json, pairs := AddTextMember(json, pairs, "content_type", a.contentType);
    json := json + [CLOSE_OBJECT];
  }

  function RecipientNodes(rs: seq<Recipient>): seq<Node> {
    if rs == [] then [] else RecipientNodes(rs[..|rs| - 1]) + [RecipientNode(rs[|rs| - 1])]
  }

  function AttachmentNodes(xs: seq<Attachment>): seq<Node> {
    if xs == [] then [] else AttachmentNodes(xs[..|xs| - 1]) + [AttachmentNode(xs[|xs| - 1])]
  }

  /** An array whose items were printed one by one. */
  method AppendArray(texts: seq<bytes>, ghost items: seq<Node>) returns (json: bytes)
    requires texts == ItemTexts(items)
    ensures json == Print(Arr(items))
  {
    hide Joined, PrintItems, ItemTexts;
    var joined := Join(texts);
    ItemsAreJoined(items);
    json := [OPEN_ARRAY] + joined + [CLOSE_ARRAY];
  }

  lemma ItemAppended(items: seq<Node>, n: Node)
    ensures ItemTexts(items + [n]) == ItemTexts(items) + [Print(n)]
  {
    hide Print;
    ItemTextsConcat(items, [n]);
    assert [n][1..] == [] && ItemTexts([n]) == [Print(n)];
  }

  method PrintRecipients(rs: seq<Recipient>) returns (json: bytes)
    ensures json == Print(Arr(RecipientNodes(rs)))
  {
    hide Print, ItemTexts, RecipientNode;
    var texts := [];
    NoItems();
    for i := 0 to |rs|
      invariant texts == ItemTexts(RecipientNodes(rs[..i]))
    {
      var text := AppendRecipient(rs[i]);
      assert rs[..i + 1][..i] == rs[..i] && rs[..i + 1][i] == rs[i];
      ItemAppended(RecipientNodes(rs[..i]), RecipientNode(rs[i]));
      texts := texts + [text];
    }
    assert rs[..|rs|] == rs;
    json := AppendArray(texts, RecipientNodes(rs));
  }

  method PrintAttachments(xs: seq<Attachment>) returns (json: bytes)
    ensures json == Print(Arr(AttachmentNodes(xs)))
  {
    hide Print, ItemTexts, AttachmentNode;
    var texts := [];
    NoItems();
    for i := 0 to |xs|
      invariant texts == ItemTexts(AttachmentNodes(xs[..i]))
    {
      var text := AppendAttachment(xs[i]);
      assert xs[..i + 1][..i] == xs[..i] && xs[..i + 1][i] == xs[i];
      ItemAppended(AttachmentNodes(xs[..i]), AttachmentNode(xs[i]));
      texts := texts + [text];
    }
    assert xs[..|xs|] == xs;
    json := AppendArray(texts, AttachmentNodes(xs));
  }

  lemma NoItems()
    ensures ItemTexts([]) == []
  {
  }

  method PrintEntry(e: Entry) returns (json: bytes)
    ensures json == Print(EntryNode(e))
  {
    hide PrintString, ItemTexts;
    if |e.values| == 1 && !IsRecipientKey(e.key) {
      json := AppendJsonString(e.values[0]);
    } else {
      var texts := [];
      NoItems();
      for i := 0 to |e.values|
        invariant texts == ItemTexts(Texts(e.values[..i]))
      {
        var text := AppendJsonString(e.values[i]);
        assert e.values[..i + 1][..i] == e.values[..i] && e.values[..i + 1][i] == e.values[i];
        ItemAppended(Texts(e.values[..i]), Str(e.values[i]));
        texts := texts + [text];
      }
      assert e.values[..|e.values|] == e.values;
      json := AppendArray(texts, Texts(e.values));
    }
  }

  /* --- The record --- */

  /** The values of a key, if it was used. */
  function ValuesOf(list: seq<Entry>, key: bytes): Option<seq<bytes>> {
    if list == [] then None else if list[0].key == key then Some(list[0].values) else ValuesOf(list[1..], key)
  }

  function FirstValue(list: seq<Entry>, key: string): Option<bytes> {
    match ValuesOf(list, Ascii(key))
    case Some(values) => if values != [] then Some(values[0]) else None
    case None => None
  }

  function CountOf(list: seq<Entry>, key: string): nat {
    match ValuesOf(list, Ascii(key))
    case Some(values) => |values|
    case None => 0
  }

  function WithPart(text: bytes, part: bytes): bytes {
    if text == [] then part else text + [SPACE] + part
  }

  function WithValue(text: bytes, before: string, value: Option<bytes>, after: string): bytes {
    if value.Some? then WithPart(text, Ascii(before) + value.value + Ascii(after)) else text
  }

  /** What a log viewer shows if no body was set: what happened, from whom, which message, to how many. */
  function DefaultBody(list: seq<Entry>, recipients: seq<Recipient>): bytes {
    var t1 := WithValue(WithValue([], "", FirstValue(list, "email.event"), ""), "", FirstValue(list, "email.action"), "");
    var t2 := if FirstValue(list, "email.envelope.from.address").Some?
              then WithValue(t1, "from=<", FirstValue(list, "email.envelope.from.address"), ">")
              else WithValue(t1, "from=", FirstValue(list, "email.from.address"), "");
    var t3 := WithValue(t2, "message-id=", FirstValue(list, "email.message.id"), "");
    var n := if recipients != [] then |recipients|
             else CountOf(list, "email.to.addresses") + CountOf(list, "email.cc.addresses") + CountOf(list, "email.bcc.addresses");
    if n > 0 then WithPart(t3, Ascii("nrcpt=") + StateFile.Digits(n)) else t3
  }

  /** The words of the body, in their order, each only if its key was used. */
  ghost function BodyWords(list: seq<Entry>, recipients: seq<Recipient>): seq<bytes> {
    var addresses := CountOf(list, "email.to.addresses") + CountOf(list, "email.cc.addresses") + CountOf(list, "email.bcc.addresses");
    var n := if recipients == [] then addresses else |recipients|;
    Word("", FirstValue(list, "email.event"), "") + Word("", FirstValue(list, "email.action"), "")
    + (if FirstValue(list, "email.envelope.from.address") == None then Word("from=", FirstValue(list, "email.from.address"), "")
       else Word("from=<", FirstValue(list, "email.envelope.from.address"), ">"))
    + Word("message-id=", FirstValue(list, "email.message.id"), "")
    + (if n == 0 then [] else [Ascii("nrcpt=") + StateFile.Digits(n)])
  }

  ghost function Word(before: string, value: Option<bytes>, after: string): seq<bytes> {
    if value.None? then [] else [Ascii(before) + value.value + Ascii(after)]
  }

  ghost function Spaced(words: seq<bytes>): bytes {
    if words == [] then [] else if |words| == 1 then words[0] else Spaced(words[..|words| - 1]) + [SPACE] + words[|words| - 1]
  }

  ghost predicate NoEmptyWord(words: seq<bytes>) {
    forall i :: 0 <= i < |words| ==> words[i] != []
  }

  /** The body is its words with a space between any two of them. */
  lemma BodyIsWords(list: seq<Entry>, recipients: seq<Recipient>)
    requires FirstValue(list, "email.event") != Some([]) && FirstValue(list, "email.action") != Some([])
    ensures DefaultBody(list, recipients) == Spaced(BodyWords(list, recipients))
  {
    hide FirstValue, CountOf, WithValue, WithPart, Word, Spaced, NoEmptyWord;
    var a := Word("", FirstValue(list, "email.event"), "");
    var b := a + Word("", FirstValue(list, "email.action"), "");
    NoWords();
    AddWord([], "", FirstValue(list, "email.event"), "");
    assert [] + a == a;
    AddWord(a, "", FirstValue(list, "email.action"), "");
    AddWord(b, "from=<", FirstValue(list, "email.envelope.from.address"), ">");
    AddWord(b, "from=", FirstValue(list, "email.from.address"), "");
    var c := b + if FirstValue(list, "email.envelope.from.address") == None then Word("from=", FirstValue(list, "email.from.address"), "")
                 else Word("from=<", FirstValue(list, "email.envelope.from.address"), ">");
    AddWord(c, "message-id=", FirstValue(list, "email.message.id"), "");
    var d := c + Word("message-id=", FirstValue(list, "email.message.id"), "");
    var addresses := CountOf(list, "email.to.addresses") + CountOf(list, "email.cc.addresses") + CountOf(list, "email.bcc.addresses");
    var n := if recipients == [] then addresses else |recipients|;
    SpacedAppend(d, Ascii("nrcpt=") + StateFile.Digits(n));
    assert d + [] == d;
  }

  lemma NoWords()
    ensures Spaced([]) == [] && NoEmptyWord([])
  {
  }

  lemma AddWord(words: seq<bytes>, before: string, value: Option<bytes>, after: string)
    requires NoEmptyWord(words) && (before == after == "" ==> value != Some([]))
    ensures WithValue(Spaced(words), before, value, after) == Spaced(words + Word(before, value, after))
    ensures NoEmptyWord(words + Word(before, value, after))
  {
    hide Spaced, WithPart;
    if value.Some? {
      SpacedAppend(words, Ascii(before) + value.value + Ascii(after));
    } else {
      assert words + [] == words;
    }
  }

  lemma SpacedAppend(words: seq<bytes>, word: bytes)
    requires NoEmptyWord(words) && word != []
    ensures Spaced(words + [word]) == WithPart(Spaced(words), word) && NoEmptyWord(words + [word])
  {
    assert (words + [word])[..|words|] == words;
  }

  method FindValues(list: seq<Entry>, key: string) returns (values: Option<seq<bytes>>)
    ensures values == ValuesOf(list, Ascii(key))
  {
    ghost var k := Ascii(key);
    for i := 0 to |list|
      invariant ValuesOf(list, k) == ValuesOf(list[i..], k)
    {
      if list[i].key == Ascii(key) {
        return Some(list[i].values);
      }
      assert list[i..][1..] == list[i + 1..];
    }
    values := None;
  }

  method AddPart(text: bytes, before: string, values: Option<seq<bytes>>, after: string) returns (t: bytes)
    requires values.Some? ==> values.value != []
    ensures t == WithValue(text, before, if values.Some? then Some(values.value[0]) else None, after)
  {
    t := text;
    if values.Some? {
      if t != [] {
        t := t + [SPACE];
      }
      t := t + (Ascii(before) + values.value[0] + Ascii(after));
    }
  }

  method CountRecipients(list: seq<Entry>, recipients: seq<Recipient>) returns (n: nat)
    ensures n == if recipients != [] then |recipients|
                 else CountOf(list, "email.to.addresses") + CountOf(list, "email.cc.addresses") + CountOf(list, "email.bcc.addresses")
  {
    if recipients != [] {
      return |recipients|;
    }
    var to := FindValues(list, "email.to.addresses");
    var cc := FindValues(list, "email.cc.addresses");
    var bcc := FindValues(list, "email.bcc.addresses");
    n := (if to.Some? then |to.value| else 0) + (if cc.Some? then |cc.value| else 0) + (if bcc.Some? then |bcc.value| else 0);
  }

  lemma {:induction false} FoundValues(list: seq<Entry>, key: bytes)
    requires forall i :: 0 <= i < |list| ==> list[i].values != []
    ensures ValuesOf(list, key).Some? ==> ValuesOf(list, key).value != []
  {
    if list != [] && list[0].key != key {
      FoundValues(list[1..], key);
    }
  }

  method BuildDefaultBody(list: seq<Entry>, recipients: seq<Recipient>) returns (t: bytes)
    requires forall i :: 0 <= i < |list| ==> list[i].values != []
    ensures t == DefaultBody(list, recipients)
  {
    hide ValuesOf, WithValue, CountOf;
    forall key: bytes ensures ValuesOf(list, key).Some? ==> ValuesOf(list, key).value != [] {
      FoundValues(list, key);
    }
    var event := FindValues(list, "email.event");
    t := AddPart([], "", event, "");
    var action := FindValues(list, "email.action");
    t := AddPart(t, "", action, "");
    var envelopeFrom := FindValues(list, "email.envelope.from.address");
    var from := FindValues(list, "email.from.address");
    if envelopeFrom.Some? {
      t := AddPart(t, "from=<", envelopeFrom, ">");
    } else {
      t := AddPart(t, "from=", from, "");
    }
    var messageId := FindValues(list, "email.message.id");
    t := AddPart(t, "message-id=", messageId, "");
    var n := CountRecipients(list, recipients);
    if n > 0 {
      t := WithPart(t, Ascii("nrcpt=") + StateFile.Digits(n));
    }
  }

  /** A change of one key is no change of another one. */
  lemma OtherKeysStay(before: seq<Entry>, after: seq<Entry>, key: bytes, value: bytes, add: bool, other: bytes)
    requires Changed(before, after, key, value, add) && other != key
    ensures ValuesOf(after, other) == ValuesOf(before, other)
  {
    if HasKey(before, key) {
      SameForOthers(before, after, key, other);
    } else {
      ValuesOfAppended(before, Entry(key, [value]), other);
    }
  }

  lemma {:induction false} SameForOthers(before: seq<Entry>, after: seq<Entry>, key: bytes, other: bytes)
    requires |after| == |before| && other != key
    requires forall i :: 0 <= i < |before| ==> after[i].key == before[i].key && (before[i].key != key ==> after[i] == before[i])
    ensures ValuesOf(after, other) == ValuesOf(before, other)
  {
    if before != [] {
      SameForOthers(before[1..], after[1..], key, other);
    }
  }

  lemma {:induction false} ValuesOfAppended(list: seq<Entry>, e: Entry, other: bytes)
    requires e.key != other
    ensures ValuesOf(list + [e], other) == ValuesOf(list, other)
  {
    if list != [] {
      assert (list + [e])[1..] == list[1..] + [e];
      ValuesOfAppended(list[1..], e, other);
    }
  }

  /** What is printed if there is no body never says anything of the subject, whatever it is. */
  lemma SubjectIsNotInBody(before: seq<Entry>, after: seq<Entry>, subject: bytes, recipients: seq<Recipient>)
    requires Changed(before, after, Ascii("email.subject"), subject, false)
    ensures DefaultBody(after, recipients) == DefaultBody(before, recipients)
  {
    hide Changed, WithValue, WithPart, FirstValue, CountOf;
    NotTheSubject(before, after, subject, "email.event");
    NotTheSubject(before, after, subject, "email.action");
    NotTheSubject(before, after, subject, "email.envelope.from.address");
    NotTheSubject(before, after, subject, "email.from.address");
    NotTheSubject(before, after, subject, "email.message.id");
    NotTheSubject(before, after, subject, "email.to.addresses");
    NotTheSubject(before, after, subject, "email.cc.addresses");
    NotTheSubject(before, after, subject, "email.bcc.addresses");
  }

  lemma NotTheSubject(before: seq<Entry>, after: seq<Entry>, subject: bytes, key: string)
    requires Changed(before, after, Ascii("email.subject"), subject, false) && |key| != |"email.subject"|
    ensures FirstValue(after, key) == FirstValue(before, key) && CountOf(after, key) == CountOf(before, key)
  {
    hide Changed;
    assert |Ascii(key)| != |Ascii("email.subject")|;
    OtherKeysStay(before, after, Ascii("email.subject"), subject, false, Ascii(key));
  }

  /** The numbers which come last, and the flags: none if they were not set. */
  datatype Numbers = Numbers(size: nat, clientPort: nat, serverPort: nat, localPort: nat, peerPort: nat, responseCode: nat)
  datatype Flags = Flags(signed: Option<bool>, encrypted: Option<bool>, tlsEstablished: Option<bool>, virusChecked: Option<bool>)

  function NumberNode(n: nat): Option<Node> {
    if n == 0 then None else Some(Num(n))
  }

  function FlagNode(f: Option<bool>): Option<Node> {
    if f.None? then None else Some(Flag(f.value))
  }

  function TextNode(text: bytes): Option<Node> {
    if text == [] then None else Some(Str(text))
  }

  /** The values of the last attributes: one for each of the tail keys. */
  function TailNodes(n: Numbers, f: Flags, attachments: seq<Attachment>, recipients: seq<Recipient>): (nodes: seq<Option<Node>>)
    ensures |nodes| == 12
  {
    [NumberNode(n.size),
     if attachments == [] then None else Some(Arr(AttachmentNodes(attachments))),
     if recipients == [] then None else Some(Arr(RecipientNodes(recipients))),
     NumberNode(n.clientPort), NumberNode(n.serverPort), NumberNode(n.localPort), NumberNode(n.peerPort), NumberNode(n.responseCode),
     FlagNode(f.signed), FlagNode(f.encrypted), FlagNode(f.tlsEstablished), FlagNode(f.virusChecked)]
  }

  /** A pair for each key which has a value. */
  function Collected(keys: seq<bytes>, nodes: seq<Option<Node>>): seq<Pair>
    requires |keys| == |nodes|
  {
    if keys == [] then [] else
    var n := |keys| - 1;
    Collected(keys[..n], nodes[..n]) + if nodes[n].Some? then [Pair(keys[n], nodes[n].value)] else []
  }

  predicate DistinctPairs(pairs: seq<Pair>) {
    forall i, j :: 0 <= i < j < |pairs| ==> pairs[i].key != pairs[j].key
  }

  lemma {:induction false} CollectedIsDistinct(keys: seq<bytes>, nodes: seq<Option<Node>>)
    requires |keys| == |nodes| && forall i, j :: 0 <= i < j < |keys| ==> keys[i] != keys[j]
    ensures DistinctPairs(Collected(keys, nodes)) && forall p :: p in Collected(keys, nodes) ==> p.key in keys
  {
    if keys != [] {
      var n := |keys| - 1;
      CollectedIsDistinct(keys[..n], nodes[..n]);
      assert keys == keys[..n] + [keys[n]];
    }
  }

  /** What a reader of an object finds under a key. */
  function Lookup(pairs: seq<Pair>, key: bytes): Option<Node> {
    if pairs == [] then None else if pairs[0].key == key then Some(pairs[0].value) else Lookup(pairs[1..], key)
  }

  ghost function Member(pairs: seq<Pair>, key: string): Option<Node> {
    Lookup(pairs, Ascii(key))
  }

  lemma {:induction false} LookupConcat(a: seq<Pair>, b: seq<Pair>, key: bytes)
    ensures Lookup(a + b, key) == if Lookup(a, key).Some? then Lookup(a, key) else Lookup(b, key)
  {
    if a == [] {
      assert a + b == b;
    } else {
      assert (a + b)[1..] == a[1..] + b;
      LookupConcat(a[1..], b, key);
    }
  }

  lemma LookupOne(p: Pair, key: bytes)
    ensures Lookup([p], key) == (if p.key == key then Some(p.value) else None) && Lookup([], key) == None
  {
    assert [p][1..] == [];
  }

  lemma {:induction false} LookupNothing(pairs: seq<Pair>, key: bytes)
    requires forall p :: p in pairs ==> p.key != key
    ensures Lookup(pairs, key) == None
  {
    if pairs != [] {
      LookupNothing(pairs[1..], key);
    }
  }

  /** Each key has its own value, or none. */
  lemma {:induction false} LookupCollected(keys: seq<bytes>, nodes: seq<Option<Node>>, i: nat)
    requires i < |keys| == |nodes| && forall i, j :: 0 <= i < j < |keys| ==> keys[i] != keys[j]
    ensures Lookup(Collected(keys, nodes), keys[i]) == nodes[i]
  {
    hide Lookup;
    var n := |keys| - 1;
    var front, last := Collected(keys[..n], nodes[..n]), if nodes[n].Some? then [Pair(keys[n], nodes[n].value)] else [];
    LookupConcat(front, last, keys[i]);
    if nodes[n].Some? {
      LookupOne(Pair(keys[n], nodes[n].value), keys[i]);
    } else {
      LookupNothing([], keys[i]);
    }
    if i < n {
      LookupCollected(keys[..n], nodes[..n], i);
    } else {
      CollectedIsDistinct(keys[..n], nodes[..n]);
      LookupNothing(front, keys[n]);
    }
  }

  /** A key which was set has its own values among those of a list. */
  lemma {:induction false} LookupEntries(list: seq<Entry>, i: nat)
    requires i < |list| && DistinctKeys(list)
    ensures Lookup(EntryPairs(list), list[i].key) == Some(EntryNode(list[i]))
  {
    hide Lookup, EntryNode;
    var n := |list| - 1;
    var last := Pair(list[n].key, EntryNode(list[n]));
    LookupConcat(EntryPairs(list[..n]), [last], list[i].key);
    LookupOne(last, list[i].key);
    if i < n {
      LookupEntries(list[..n], i);
    } else {
      LookupNothing(EntryPairs(list[..n]), list[n].key);
    }
  }

  lemma {:induction false} LookupResource(list: seq<Entry>, i: nat)
    requires i < |list| && DistinctKeys(list) && forall i :: 0 <= i < |list| ==> list[i].values != []
    ensures Lookup(ResourcePairs(list), list[i].key) == Some(Str(list[i].values[0]))
  {
    hide Lookup;
    var n := |list| - 1;
    var last := Pair(list[n].key, Str(list[n].values[0]));
    LookupConcat(ResourcePairs(list[..n]), [last], list[i].key);
    LookupOne(last, list[i].key);
    if i < n {
      LookupResource(list[..n], i);
    } else {
      LookupNothing(ResourcePairs(list[..n]), list[n].key);
    }
  }

  /** One value is a string, several are an array of strings in their order, and addresses of recipients always are one. */
  ghost predicate IsValues(node: Node, e: Entry) {
    var recipients := e.key == Ascii("email.to.addresses") || e.key == Ascii("email.cc.addresses") || e.key == Ascii("email.bcc.addresses");
    && (node.Str? <==> |e.values| == 1 && !recipients) && (node.Arr? <==> !node.Str?)
    && (node.Str? ==> node.text == e.values[0])
    && (node.Arr? ==> |node.items| == |e.values| && forall i :: 0 <= i < |e.values| ==> node.items[i] == Str(e.values[i]))
  }

  lemma EntryIsValues(e: Entry)
    ensures IsValues(EntryNode(e), e)
  {
    TextsAre(e.values);
  }

  lemma {:induction false} TextsAre(values: seq<bytes>)
    ensures |Texts(values)| == |values| && forall i :: 0 <= i < |values| ==> Texts(values)[i] == Str(values[i])
  {
    if values != [] {
      TextsAre(values[..|values| - 1]);
    }
  }

  ghost predicate IsText(node: Option<Node>, text: bytes) {
    node == if text == [] then None else Some(Str(text))
  }

  ghost predicate IsNumber(node: Option<Node>, n: nat) {
    node == if n == 0 then None else Some(Num(n))
  }

  ghost predicate IsFlag(node: Option<Node>, f: Option<bool>) {
    node == if f == None then None else Some(Flag(f.value))
  }

  ghost predicate IsRecipient(node: Node, r: Recipient) {
    && node.Obj?
    && Member(node.pairs, "address") == Some(Str(r.address)) && IsText(Member(node.pairs, "status"), r.status)
    && IsNumber(Member(node.pairs, "code"), r.code) && IsText(Member(node.pairs, "enhanced_status_code"), r.enhancedStatus)
    && IsText(Member(node.pairs, "text"), r.text)
  }

  ghost predicate IsAttachment(node: Node, a: Attachment) {
    && node.Obj?
    && Member(node.pairs, "name") == Some(Str(a.name)) && IsNumber(Member(node.pairs, "size_bytes"), a.size)
    && IsText(Member(node.pairs, "sha256"), a.sha256) && IsText(Member(node.pairs, "content_type"), a.contentType)
  }

  lemma LookupText(key: string, text: bytes, other: string)
    requires forall c :: c in key || c in other ==> c as int < 256
    ensures Member(TextPair(key, text), other) == if text != [] && key == other then Some(Str(text)) else None
  {
    AsciiIsInjective(key, other);
    if text == [] {
      LookupNothing([], Ascii(other));
    } else {
      LookupOne(Pair(Ascii(key), Str(text)), Ascii(other));
    }
  }

  lemma LookupNumber(key: string, n: nat, other: string)
    requires forall c :: c in key || c in other ==> c as int < 256
    ensures Member(NumberPair(Ascii(key), n), other) == if n != 0 && key == other then Some(Num(n)) else None
  {
    AsciiIsInjective(key, other);
    if n == 0 {
      LookupNothing([], Ascii(other));
    } else {
      LookupOne(Pair(Ascii(key), Num(n)), Ascii(other));
    }
  }

  lemma RecipientMember(r: Recipient, key: string)
    requires key in ["address", "status", "code", "enhanced_status_code", "text"]
    ensures var n := Member(RecipientNode(r).pairs, key);
            && (key == "address" ==> n == Some(Str(r.address))) && (key == "status" ==> IsText(n, r.status))
            && (key == "code" ==> IsNumber(n, r.code)) && (key == "enhanced_status_code" ==> IsText(n, r.enhancedStatus))
            && (key == "text" ==> IsText(n, r.text))
  {
    hide Lookup, TextPair, NumberPair, Ascii;
    var a := [Pair(Ascii("address"), Str(r.address))];
    var b, c := TextPair("status", r.status), NumberPair(Ascii("code"), r.code);
    var d, e := TextPair("enhanced_status_code", r.enhancedStatus), TextPair("text", r.text);
    var k := Ascii(key);
    LookupConcat(a + b + c + d, e, k);
    LookupConcat(a + b + c, d, k);
    LookupConcat(a + b, c, k);
    LookupConcat(a, b, k);
    LookupOne(a[0], k);
    AsciiIsInjective("address", key);
    LookupText("status", r.status, key);
    LookupNumber("code", r.code, key);
    LookupText("enhanced_status_code", r.enhancedStatus, key);
    LookupText("text", r.text, key);
  }

  lemma RecipientIs(r: Recipient)
    ensures IsRecipient(RecipientNode(r), r)
  {
    hide Member, IsText, IsNumber;
    RecipientMember(r, "address");
    RecipientMember(r, "status");
    RecipientMember(r, "code");
    RecipientMember(r, "enhanced_status_code");
    RecipientMember(r, "text");
  }

  lemma AttachmentMember(x: Attachment, key: string)
    requires key in ["name", "size_bytes", "sha256", "content_type"]
    ensures var n := Member(AttachmentNode(x).pairs, key);
            && (key == "name" ==> n == Some(Str(x.name))) && (key == "size_bytes" ==> IsNumber(n, x.size))
            && (key == "sha256" ==> IsText(n, x.sha256)) && (key == "content_type" ==> IsText(n, x.contentType))
  {
    hide Lookup, TextPair, NumberPair, Ascii;
    var a := [Pair(Ascii("name"), Str(x.name))];
    var b, c, d := NumberPair(Ascii("size_bytes"), x.size), TextPair("sha256", x.sha256), TextPair("content_type", x.contentType);
    var k := Ascii(key);
    LookupConcat(a + b + c, d, k);
    LookupConcat(a + b, c, k);
    LookupConcat(a, b, k);
    LookupOne(a[0], k);
    AsciiIsInjective("name", key);
    LookupNumber("size_bytes", x.size, key);
    LookupText("sha256", x.sha256, key);
    LookupText("content_type", x.contentType, key);
  }

  lemma AttachmentIs(x: Attachment)
    ensures IsAttachment(AttachmentNode(x), x)
  {
    hide Member, IsText, IsNumber;
    AttachmentMember(x, "name");
    AttachmentMember(x, "size_bytes");
    AttachmentMember(x, "sha256");
    AttachmentMember(x, "content_type");
  }

  /** An array with one object for each of them, or nothing if there are none. */
  ghost predicate AreRecipients(node: Option<Node>, rs: seq<Recipient>) {
    && (node.None? <==> rs == [])
    && (node.Some? ==> && node.value.Arr? && |node.value.items| == |rs|
                       && forall i :: 0 <= i < |rs| ==> IsRecipient(node.value.items[i], rs[i]))
  }

  ghost predicate AreAttachments(node: Option<Node>, xs: seq<Attachment>) {
    && (node.None? <==> xs == [])
    && (node.Some? ==> && node.value.Arr? && |node.value.items| == |xs|
                       && forall i :: 0 <= i < |xs| ==> IsAttachment(node.value.items[i], xs[i]))
  }

  lemma {:induction false} RecipientsAre(rs: seq<Recipient>)
    ensures |RecipientNodes(rs)| == |rs| && forall i :: 0 <= i < |rs| ==> IsRecipient(RecipientNodes(rs)[i], rs[i])
  {
    hide RecipientNode, IsRecipient;
    if rs != [] {
      RecipientsAre(rs[..|rs| - 1]);
      RecipientIs(rs[|rs| - 1]);
    }
  }

  lemma {:induction false} AttachmentsAre(xs: seq<Attachment>)
    ensures |AttachmentNodes(xs)| == |xs| && forall i :: 0 <= i < |xs| ==> IsAttachment(AttachmentNodes(xs)[i], xs[i])
  {
    hide AttachmentNode, IsAttachment;
    if xs != [] {
      AttachmentsAre(xs[..|xs| - 1]);
      AttachmentIs(xs[|xs| - 1]);
    }
  }

  /** The last attributes: each has the value of its field, or is not there if that was not set. */
  ghost predicate TailSays(a: seq<Pair>, n: Numbers, f: Flags, attachments: seq<Attachment>, recipients: seq<Recipient>) {
    && IsNumber(Member(a, "email.size_bytes"), n.size)
    && AreAttachments(Member(a, "email.attachments"), attachments)
    && AreRecipients(Member(a, "email.envelope.recipients"), recipients)
    && IsNumber(Member(a, "client.port"), n.clientPort) && IsNumber(Member(a, "server.port"), n.serverPort)
    && IsNumber(Member(a, "network.local.port"), n.localPort) && IsNumber(Member(a, "network.peer.port"), n.peerPort)
    && IsNumber(Member(a, "email.smtp.response.code"), n.responseCode)
    && IsFlag(Member(a, "email.signed"), f.signed) && IsFlag(Member(a, "email.encrypted"), f.encrypted)
    && IsFlag(Member(a, "tls.established"), f.tlsEstablished) && IsFlag(Member(a, "email.virus.checked"), f.virusChecked)
  }

  lemma TailIsSaid(a: seq<Pair>, n: Numbers, f: Flags, attachments: seq<Attachment>, recipients: seq<Recipient>)
    requires forall i :: 0 <= i < 12 ==> Lookup(a, TailKeys()[i]) == TailNodes(n, f, attachments, recipients)[i]
    ensures TailSays(a, n, f, attachments, recipients)
  {
    hide Lookup, Ascii, AttachmentNodes, RecipientNodes, IsAttachment, IsRecipient;
    var keys, nodes := TailKeys(), TailNodes(n, f, attachments, recipients);
    assert forall i :: 0 <= i < 12 ==> Lookup(a, keys[i]) == nodes[i];
    AttachmentsAre(attachments);
    RecipientsAre(recipients);
    assert Lookup(a, keys[0]) == nodes[0] && Lookup(a, keys[1]) == nodes[1] && Lookup(a, keys[2]) == nodes[2];
    assert Lookup(a, keys[3]) == nodes[3] && Lookup(a, keys[4]) == nodes[4] && Lookup(a, keys[5]) == nodes[5];
    assert Lookup(a, keys[6]) == nodes[6] && Lookup(a, keys[7]) == nodes[7] && Lookup(a, keys[8]) == nodes[8];
    assert Lookup(a, keys[9]) == nodes[9] && Lookup(a, keys[10]) == nodes[10] && Lookup(a, keys[11]) == nodes[11];
  }

  lemma AsciiIsInjective(a: string, b: string)
    requires forall c :: c in a || c in b ==> c as int < 256
    ensures Ascii(a) == Ascii(b) <==> a == b
  {
    if Ascii(a) == Ascii(b) {
      forall i | 0 <= i < |a| ensures a[i] == b[i] {
        assert a[i] in a && b[i] in b && Ascii(a)[i] == a[i] as int && Ascii(b)[i] == b[i] as int;
      }
    }
  }

  /** The members of a record, in their order. */
  function TopKeys(): (keys: seq<bytes>)
    ensures |keys| == 8
  {
    [Ascii("scope"), Ascii("resource"), Ascii("time_unix_nano"), Ascii("observed_time_unix_nano"), Ascii("severity_number"),
     Ascii("severity_text"), Ascii("body"), Ascii("attributes")]
  }

  lemma TopKeysDiffer()
    ensures forall i, j :: 0 <= i < j < 8 ==> TopKeys()[i] != TopKeys()[j]
  {
    var k := TopKeys();
    assert |k[0]| == 5 && |k[1]| == 8 && |k[2]| == 14 && |k[3]| == 23 && |k[4]| == 15 && |k[5]| == 13 && |k[6]| == 4 && |k[7]| == 10;
  }

  function ScopeNode(): Node {
    Obj([Pair(Ascii("name"), Str(Ascii("mail-log"))), Pair(Ascii("version"), Str(Ascii("0.1.0")))])
  }

  function ResourcePairs(list: seq<Entry>): (pairs: seq<Pair>)
    requires forall i :: 0 <= i < |list| ==> list[i].values != []
    ensures |pairs| == |list| && forall i :: 0 <= i < |list| ==> pairs[i] == Pair(list[i].key, Str(list[i].values[0]))
  {
    if list == [] then [] else
    ResourcePairs(list[..|list| - 1]) + [Pair(list[|list| - 1].key, Str(list[|list| - 1].values[0]))]
  }

  function ResourceNode(list: seq<Entry>): Node
    requires forall i :: 0 <= i < |list| ==> list[i].values != []
  {
    Obj(ResourcePairs(list))
  }

  method PrintPairsOf(pairs: seq<Pair>, texts: seq<bytes>) returns (json: bytes)
    requires texts == PairTexts(pairs)
    ensures json == Print(Obj(pairs))
  {
    hide Joined, PairTexts, PrintPairs;
    var joined := Join(texts);
    PairsAreJoined(pairs);
    json := [OPEN_OBJECT] + joined + [CLOSE_OBJECT];
  }

  method PrintResource(list: seq<Entry>) returns (json: bytes)
    requires forall i :: 0 <= i < |list| ==> list[i].values != []
    ensures json == Print(ResourceNode(list))
  {
    hide PairTexts, PrintPairs, Print, PrintString;
    var texts, pairs := [], [];
    NoPairs();
    for i := 0 to |list|
      invariant pairs == ResourcePairs(list[..i]) && texts == PairTexts(pairs)
    {
      var p := Pair(list[i].key, Str(list[i].values[0]));
      assert list[..i + 1][..i] == list[..i] && list[..i + 1][i] == list[i];
      PairAppended(pairs, p);
      var key := AppendJsonString(p.key);
      var value := AppendJsonString(list[i].values[0]);
      StringIsText(list[i].values[0]);
      texts, pairs := texts + [key + [COLON] + value], pairs + [p];
    }
    assert list[..|list|] == list;
    json := PrintPairsOf(pairs, texts);
  }

  lemma NoPairs()
    ensures PairTexts([]) == []
  {
  }

  lemma StringIsText(text: bytes)
    ensures Print(Str(text)) == PrintString(text)
  {
  }

  /** The pairs before and those of the first i keys were printed. */
  ghost predicate Written(texts: seq<bytes>, before: seq<Pair>, keys: seq<bytes>, nodes: seq<Option<Node>>, i: nat) {
    i <= |keys| == |nodes| && texts == PairTexts(before + Collected(keys[..i], nodes[..i]))
  }

  lemma NothingWritten(texts: seq<bytes>, before: seq<Pair>, keys: seq<bytes>, nodes: seq<Option<Node>>)
    requires |keys| == |nodes| && texts == PairTexts(before)
    ensures Written(texts, before, keys, nodes, 0)
  {
    hide PairTexts;
    assert Collected(keys[..0], nodes[..0]) == [] && before + [] == before;
  }

  lemma AllWritten(texts: seq<bytes>, before: seq<Pair>, keys: seq<bytes>, nodes: seq<Option<Node>>)
    requires Written(texts, before, keys, nodes, |keys|)
    ensures texts == PairTexts(before + Collected(keys, nodes))
  {
    hide PairTexts, Collected;
    assert keys[..|keys|] == keys && nodes[..|keys|] == nodes;
  }

  /** One more key: its text, if it has a value. */
  method AddOptional(texts: seq<bytes>, ghost before: seq<Pair>, keys: seq<bytes>, ghost nodes: seq<Option<Node>>, i: nat,
                     ghost node: Option<Node>, there: bool, text: bytes) returns (after: seq<bytes>)
    requires i < |keys| == |nodes| && nodes[i] == node && there == node.Some? && (there ==> text == Print(node.value))
    requires Written(texts, before, keys, nodes, i)
    ensures Written(after, before, keys, nodes, i + 1)
  {
    hide PairTexts, PrintString, Print;
    ghost var pairs := Collected(keys[..i], nodes[..i]);
    assert keys[..i + 1][..i] == keys[..i] && nodes[..i + 1][..i] == nodes[..i];
    assert keys[..i + 1][i] == keys[i] && nodes[..i + 1][i] == nodes[i];
    after := texts;
    if there {
      ghost var p := Pair(keys[i], node.value);
      PairAppended(before + pairs, p);
      assert before + (pairs + [p]) == before + pairs + [p];
      var key := AppendJsonString(keys[i]);
      after := texts + [key + [COLON] + text];
    } else {
      assert pairs + [] == pairs;
    }
  }

  function FlagText(f: Option<bool>): bytes {
    if f == Some(true) then TRUE_TEXT else FALSE_TEXT
  }

  class MailLog {
    var body: bytes
    var severityNumber: nat
    var severityText: bytes
    var timeNs: nat
    var observedNs: nat
    var numbers: Numbers
    var flags: Flags
    var resource: seq<Entry>
    var attributes: seq<Entry>
    var recipients: seq<Recipient>
    var attachments: seq<Attachment>

    predicate Valid()
      reads this
    {
      && DistinctKeys(resource) && (forall i :: 0 <= i < |resource| ==> resource[i].values != [])
      && DistinctKeys(attributes) && (forall i :: 0 <= i < |attributes| ==> attributes[i].key !in TailKeys() && attributes[i].values != [])
    }

    constructor ()
      ensures Valid() && resource == attributes == [] && recipients == [] && attachments == []
    {
      body, severityNumber, severityText, timeNs, observedNs := [], 0, [], 0, 0;
      numbers, flags := Numbers(0, 0, 0, 0, 0, 0), Flags(None, None, None, None);
      resource, attributes, recipients, attachments := [], [], [], [];
    }

    /** The setters of a text: an empty one is ignored. The key is one of those of the class, never one of the last ones. */
    method SetText(key: bytes, value: bytes)
      requires Valid() && key !in TailKeys()
      modifies this`attributes
      ensures Valid()
      ensures if value == [] then attributes == old(attributes) else Changed(old(attributes), attributes, key, value, false)
    {
      if value == [] {
        return;
      }
      attributes := PutValue(attributes, key, value, false);
    }

    /** An empty envelope sender is a value, and not nothing to set. */
    method SetEnvelopeFromEmpty()
      requires Valid()
      modifies this`attributes
      ensures Valid() && Changed(old(attributes), attributes, Ascii("email.envelope.from.address"), [], false)
    {
      EnvelopeFromIsNoTailKey();
      attributes := PutValue(attributes, Ascii("email.envelope.from.address"), [], false);
    }

    /** To, Cc and Bcc: each call adds one more. */
    method AddAddress(key: bytes, value: bytes)
      requires Valid() && key !in TailKeys()
      modifies this`attributes
      ensures Valid()
      ensures if value == [] then attributes == old(attributes) else Changed(old(attributes), attributes, key, value, true)
    {
      if value == [] {
        return;
      }
      attributes := PutValue(attributes, key, value, true);
    }

    /** A header: its key is made of its name, whatever that is. */
    method AddHeader(name: bytes, value: bytes) returns (key: bytes)
      requires Valid()
      modifies this`attributes
      ensures Valid()
      ensures if name == [] || value == [] then attributes == old(attributes)
              else IsHeaderKey(key, name) && Changed(old(attributes), attributes, key, value, true)
    {
      key := [];
      if name == [] || value == [] {
        return;
      }
      var normalized := NormalizeHeaderName(name);
      key := Ascii(HEADER_PREFIX) + normalized;
      HeaderIsNoTailKey(normalized);
      attributes := PutValue(attributes, key, value, true);
    }

    method SetResource(key: bytes, value: bytes)
      requires Valid()
      modifies this`resource
      ensures Valid()
      ensures if key == [] || value == [] then resource == old(resource) else Changed(old(resource), resource, key, value, false)
    {
      if key == [] || value == [] {
        return;
      }
      resource := PutValue(resource, key, value, false);
    }

    method AddRecipient(address: bytes, status: bytes, code: int, enhancedStatus: bytes, text: bytes)
      modifies this`recipients
      ensures recipients == old(recipients) + if address == [] then [] else
                            [Recipient(address, status, if code > 0 then code else 0, enhancedStatus, text)]
    {
      if address == [] {
        return;
      }
      recipients := recipients + [Recipient(address, status, if code > 0 then code else 0, enhancedStatus, text)];
    }

    /** The values of the attributes: those which were set by a key, and behind them the last ones. */
    function AttributePairs(): seq<Pair>
      reads this
    {
      EntryPairs(attributes) + Collected(TailKeys(), TailNodes(numbers, flags, attachments, recipients))
    }

    function Body(): bytes
      reads this
    {
      if body == [] then DefaultBody(attributes, recipients) else body
    }

    function TopNodes(): (nodes: seq<Option<Node>>)
      requires Valid()
      reads this
      ensures |nodes| == 8
    {
      [Some(ScopeNode()),
       if resource == [] then None else Some(ResourceNode(resource)),
       if timeNs == 0 then None else Some(Str(StateFile.Digits(timeNs))),
       if observedNs == 0 then None else Some(Str(StateFile.Digits(observedNs))),
       NumberNode(severityNumber),
       if severityNumber == 0 then None else TextNode(severityText),
       TextNode(Body()),
       if AttributePairs() == [] then None else Some(Obj(AttributePairs()))]
    }

    /** The record as a tree. */
    function Tree(): Node
      requires Valid()
      reads this
    {
      Obj(Collected(TopKeys(), TopNodes()))
    }

    /** What a reader finds in a record under its keys: each has the value of its field, or is not there if that was not set. */
    ghost predicate Says(record: Node)
      reads this
    {
      && record.Obj? && record.pairs != []
      && var m := record.pairs;
         && IsScope(Member(m, "scope")) && IsResource(Member(m, "resource"))
         && IsText(Member(m, "time_unix_nano"), if timeNs == 0 then [] else StateFile.Digits(timeNs))
         && IsText(Member(m, "observed_time_unix_nano"), if observedNs == 0 then [] else StateFile.Digits(observedNs))
         && IsNumber(Member(m, "severity_number"), severityNumber)
         && IsText(Member(m, "severity_text"), if severityNumber == 0 then [] else severityText)
         && IsText(Member(m, "body"), if body == [] then DefaultBody(attributes, recipients) else body)
         && AreAttributes(Member(m, "attributes"))
    }

    ghost predicate IsResource(node: Option<Node>)
      reads this
    {
      && (node.None? <==> resource == [])
      && (node.Some? ==> node.value.Obj? && |node.value.pairs| == |resource|
                         && forall i :: 0 <= i < |resource| && resource[i].values != [] ==>
                              Lookup(node.value.pairs, resource[i].key) == Some(Str(resource[i].values[0])))
    }

    ghost predicate AreAttributes(node: Option<Node>)
      reads this
    {
      && (node.None? <==> attributes == [] && TailSays([], numbers, flags, attachments, recipients))
      && (node.Some? ==> node.value.Obj? && SaysAttributes(node.value.pairs))
    }

    ghost predicate SaysAttributes(a: seq<Pair>)
      reads this
    {
      && (forall i :: 0 <= i < |attributes| ==>
            Lookup(a, attributes[i].key).Some? && IsValues(Lookup(a, attributes[i].key).value, attributes[i]))
      && TailSays(a, numbers, flags, attachments, recipients)
    }

    lemma TreeSays()
      requires Valid()
      ensures Says(Tree())
    {
      hide Lookup, Collected, Ascii, ResourcePairs, DefaultBody, AttributePairs, TailSays;
      var keys, nodes := TopKeys(), TopNodes();
      TopKeysDiffer();
      forall i | 0 <= i < 8 ensures Lookup(Tree().pairs, keys[i]) == nodes[i] {
        LookupCollected(keys, nodes, i);
      }
      var m := Tree().pairs;
      assert Lookup(m, keys[0]) == nodes[0] && Lookup(m, keys[1]) == nodes[1] && Lookup(m, keys[2]) == nodes[2];
      assert Lookup(m, keys[3]) == nodes[3] && Lookup(m, keys[4]) == nodes[4] && Lookup(m, keys[5]) == nodes[5];
      assert Lookup(m, keys[6]) == nodes[6] && Lookup(m, keys[7]) == nodes[7];
      SomethingIsThere(m, keys[0]);
      ScopeIs();
      forall i | 0 <= i < |resource| ensures Lookup(ResourcePairs(resource), resource[i].key) == Some(Str(resource[i].values[0])) {
        LookupResource(resource, i);
      }
      PairsSay();
    }

    /** The attributes are found under the keys which were set, and the last ones under their own. */
    lemma PairsSay()
      requires Valid()
      ensures SaysAttributes(AttributePairs())
      ensures AttributePairs() == [] <==> attributes == [] && TailSays([], numbers, flags, attachments, recipients)
    {
      hide Lookup, Collected, TailKeys, TailNodes, EntryNode, IsValues, TailSays, Member;
      var before, keys, nodes := EntryPairs(attributes), TailKeys(), TailNodes(numbers, flags, attachments, recipients);
      var tail := Collected(keys, nodes);
      TailKeysDiffer();
      forall i | 0 <= i < 12 ensures Lookup(AttributePairs(), keys[i]) == Lookup(tail, keys[i]) == nodes[i] {
        LookupConcat(before, tail, keys[i]);
        LookupNothing(before, keys[i]);
        LookupCollected(keys, nodes, i);
      }
      forall i | 0 <= i < |attributes| ensures var n := Lookup(AttributePairs(), attributes[i].key); n.Some? && IsValues(n.value, attributes[i]) {
        LookupConcat(before, tail, attributes[i].key);
        LookupEntries(attributes, i);
        EntryIsValues(attributes[i]);
      }
      TailIsSaid(AttributePairs(), numbers, flags, attachments, recipients);
      if attributes == [] {
        assert AttributePairs() == tail;
        NoTail(numbers, flags, attachments, recipients);
      }
    }

    method Build() returns (json: bytes)
      requires Valid()
      ensures json == Print(Tree())
      ensures ParseValue(json).Ok? && ParseValue(json).rest == [] && Says(ParseValue(json).value)
    {
      json := Printed();
      BuildIsParsed();
      TreeSays();
    }

    method Printed() returns (json: bytes)
      requires Valid()
      ensures json == Print(Tree())
    {
      hide Print, PairTexts, Collected, PrintString, TopKeys, ScopeNode, Written, DefaultBody;
      var keys := TopKeys();
      ghost var nodes := TopNodes();
      NoPairs();
      NothingWritten([], [], keys, nodes);
      var scope := PrintScope();
      var t := AddOptional([], [], keys, nodes, 0, nodes[0], true, scope);
      var text := PrintResource(resource);
      t := AddOptional(t, [], keys, nodes, 1, nodes[1], resource != [], text);
      t := AddNumbersOfTop(t, keys, nodes);
      var shown := body;
      if shown == [] {
        shown := BuildDefaultBody(attributes, recipients);
      }
      t := AddText(t, keys, nodes, 6, shown);
      text := PrintAttributes();
      t := AddOptional(t, [], keys, nodes, 7, nodes[7], AttributePairs() != [], text);
      AllWritten(t, [], keys, nodes);
      assert [] + Collected(keys, nodes) == Collected(keys, nodes);
      json := PrintPairsOf(Collected(keys, TopNodes()), t);
    }

    /** The times, as strings, and the severity. */
    method AddNumbersOfTop(texts: seq<bytes>, keys: seq<bytes>, ghost nodes: seq<Option<Node>>) returns (t: seq<bytes>)
      requires Valid() && nodes == TopNodes() && |keys| == 8 && Written(texts, [], keys, nodes, 2)
      ensures Written(t, [], keys, nodes, 6)
    {
      hide Print, PrintString, ScopeNode, Written;
      var text := AppendJsonString(StateFile.Digits(timeNs));
      StringIsText(StateFile.Digits(timeNs));
      t := AddOptional(texts, [], keys, nodes, 2, nodes[2], timeNs != 0, text);
      text := AppendJsonString(StateFile.Digits(observedNs));
      StringIsText(StateFile.Digits(observedNs));
      t := AddOptional(t, [], keys, nodes, 3, nodes[3], observedNs != 0, text);
      t := AddNumber(t, [], keys, nodes, 4, severityNumber);
      t := AddText(t, keys, nodes, 5, if severityNumber == 0 then [] else severityText);
    }

    method PrintAttributes() returns (json: bytes)
      requires Valid()
      ensures json == Print(Obj(AttributePairs()))
    {
      hide Print, PairTexts, Collected, TailKeys, EntryPairs, PrintString, Written;
      var texts := PrintEntries(attributes);
      ghost var before := EntryPairs(attributes);
      var keys := TailKeys();
      ghost var nodes := TailNodes(numbers, flags, attachments, recipients);
      NothingWritten(texts, before, keys, nodes);
      var t := AddNumber(texts, before, keys, nodes, 0, numbers.size);
      var text := PrintAttachments(attachments);
      t := AddOptional(t, before, keys, nodes, 1, nodes[1], attachments != [], text);
      text := PrintRecipients(recipients);
      t := AddOptional(t, before, keys, nodes, 2, nodes[2], recipients != [], text);
      t := AddPorts(t, before, keys, nodes);
      t := AddFlags(t, before, keys, nodes);
      AllWritten(t, before, keys, nodes);
      json := PrintPairsOf(AttributePairs(), t);
    }

    method AddPorts(texts: seq<bytes>, ghost before: seq<Pair>, keys: seq<bytes>, ghost nodes: seq<Option<Node>>) returns (t: seq<bytes>)
      requires nodes == TailNodes(numbers, flags, attachments, recipients) && |keys| == 12 && Written(texts, before, keys, nodes, 3)
      ensures Written(t, before, keys, nodes, 8)
    {
      hide Written, NumberNode;
      t := AddNumber(texts, before, keys, nodes, 3, numbers.clientPort);
      t := AddNumber(t, before, keys, nodes, 4, numbers.serverPort);
      t := AddNumber(t, before, keys, nodes, 5, numbers.localPort);
      t := AddNumber(t, before, keys, nodes, 6, numbers.peerPort);
      t := AddNumber(t, before, keys, nodes, 7, numbers.responseCode);
    }

    method AddFlags(texts: seq<bytes>, ghost before: seq<Pair>, keys: seq<bytes>, ghost nodes: seq<Option<Node>>) returns (t: seq<bytes>)
      requires nodes == TailNodes(numbers, flags, attachments, recipients) && |keys| == 12 && Written(texts, before, keys, nodes, 8)
      ensures Written(t, before, keys, nodes, 12)
    {
      hide Written, FlagNode;
      t := AddFlag(texts, before, keys, nodes, 8, flags.signed);
      t := AddFlag(t, before, keys, nodes, 9, flags.encrypted);
      t := AddFlag(t, before, keys, nodes, 10, flags.tlsEstablished);
      t := AddFlag(t, before, keys, nodes, 11, flags.virusChecked);
    }

    /** What is printed is one line, and a parser reads the record back from it. */
    lemma BuildIsParsed()
      requires Valid()
      ensures ParseValue(Print(Tree())) == Ok(Tree(), [])
      ensures NoControl(Print(Tree())) && NEW_LINE !in Print(Tree())
    {
      hide Print, NoControl, ParseValue;
      ValueParses(Tree(), []);
      assert Print(Tree()) + [] == Print(Tree());
      PrintHasNoControl(Tree());
      NoNewLine(Print(Tree()));
    }

    /** No key is there twice, neither in the record nor in its attributes nor in its resource. */
    lemma KeysAreDistinct()
      requires Valid()
      ensures DistinctPairs(Tree().pairs) && DistinctPairs(AttributePairs()) && DistinctPairs(ResourcePairs(resource))
    {
      hide Collected, TopKeys, TailKeys, TailNodes;
      TopKeysDiffer();
      TailKeysDiffer();
      CollectedIsDistinct(TopKeys(), TopNodes());
      var tail := Collected(TailKeys(), TailNodes(numbers, flags, attachments, recipients));
      CollectedIsDistinct(TailKeys(), TailNodes(numbers, flags, attachments, recipients));
      forall i, j | 0 <= i < j < |AttributePairs()| ensures AttributePairs()[i].key != AttributePairs()[j].key {
        if i < |attributes| <= j {
          assert AttributePairs()[j] == tail[j - |attributes|] && tail[j - |attributes|] in tail;
        } else if i >= |attributes| {
          assert AttributePairs()[i] == tail[i - |attributes|] && AttributePairs()[j] == tail[j - |attributes|];
        }
      }
    }
  }

  ghost predicate IsScope(node: Option<Node>) {
    && node.Some? && node.value.Obj?
    && Member(node.value.pairs, "name") == Some(Str(Ascii("mail-log"))) && Member(node.value.pairs, "version") == Some(Str(Ascii("0.1.0")))
  }

  lemma ScopeIs()
    ensures IsScope(Some(ScopeNode()))
  {
    hide Ascii;
    var a, b := ScopeNode().pairs[0], ScopeNode().pairs[1];
    assert ScopeNode().pairs == [a] + [b];
    AsciiIsInjective("name", "version");
    LookupConcat([a], [b], a.key);
    LookupConcat([a], [b], b.key);
    LookupOne(a, a.key);
    LookupOne(a, b.key);
    LookupOne(b, b.key);
  }

  lemma SomethingIsThere(pairs: seq<Pair>, key: bytes)
    ensures Lookup(pairs, key).Some? ==> pairs != []
  {
  }

  /** None of the last attributes is there if and only if none of the fields was set. */
  lemma NoTail(n: Numbers, f: Flags, attachments: seq<Attachment>, recipients: seq<Recipient>)
    ensures Collected(TailKeys(), TailNodes(n, f, attachments, recipients)) == [] <==> TailSays([], n, f, attachments, recipients)
  {
    hide Lookup, Collected, TailKeys;
    var keys, nodes := TailKeys(), TailNodes(n, f, attachments, recipients);
    if Collected(keys, nodes) == [] {
      TailKeysDiffer();
      forall i | 0 <= i < 12 ensures Lookup([], keys[i]) == nodes[i] {
        LookupCollected(keys, nodes, i);
      }
      TailIsSaid([], n, f, attachments, recipients);
    }
    if TailSays([], n, f, attachments, recipients) {
      NothingLookedUp();
      CollectsNothing(keys, nodes);
    }
  }

  lemma NothingLookedUp()
    ensures forall key: bytes :: Lookup([], key) == None
  {
  }

  lemma {:induction false} CollectsNothing(keys: seq<bytes>, nodes: seq<Option<Node>>)
    requires |keys| == |nodes| && forall i :: 0 <= i < |nodes| ==> nodes[i] == None
    ensures Collected(keys, nodes) == []
  {
    if keys != [] {
      CollectsNothing(keys[..|keys| - 1], nodes[..|keys| - 1]);
    }
  }

  lemma NoNewLine(s: bytes)
    requires NoControl(s)
    ensures NEW_LINE !in s
  {
  }

  lemma NumberIsText(n: nat)
    ensures Print(Num(n)) == StateFile.Digits(n)
  {
  }

  method PrintScope() returns (json: bytes)
    ensures json == Print(ScopeNode())
  {
    json := Print(ScopeNode());
  }

  method PrintEntries(list: seq<Entry>) returns (texts: seq<bytes>)
    ensures texts == PairTexts(EntryPairs(list))
  {
    hide PairTexts, Print, PrintString, EntryNode;
    texts := [];
    NoPairs();
    for i := 0 to |list|
      invariant texts == PairTexts(EntryPairs(list[..i]))
    {
      assert list[..i + 1][..i] == list[..i] && list[..i + 1][i] == list[i];
      PairAppended(EntryPairs(list[..i]), Pair(list[i].key, EntryNode(list[i])));
      var key := AppendJsonString(list[i].key);
      var value := PrintEntry(list[i]);
      texts := texts + [key + [COLON] + value];
    }
    assert list[..|list|] == list;
  }

  method AddNumber(texts: seq<bytes>, ghost before: seq<Pair>, keys: seq<bytes>, ghost nodes: seq<Option<Node>>, i: nat, n: nat)
    returns (after: seq<bytes>)
    requires i < |keys| == |nodes| && nodes[i] == NumberNode(n) && Written(texts, before, keys, nodes, i)
    ensures Written(after, before, keys, nodes, i + 1)
  {
    hide Print, PairTexts, Collected;
    NumberIsText(n);
    after := AddOptional(texts, before, keys, nodes, i, NumberNode(n), n != 0, StateFile.Digits(n));
  }

  method AddText(texts: seq<bytes>, keys: seq<bytes>, ghost nodes: seq<Option<Node>>, i: nat, text: bytes) returns (after: seq<bytes>)
    requires i < |keys| == |nodes| && nodes[i] == TextNode(text) && Written(texts, [], keys, nodes, i)
    ensures Written(after, [], keys, nodes, i + 1)
  {
    hide Written, Print, PrintString;
    var json := AppendJsonString(text);
    StringIsText(text);
    after := AddOptional(texts, [], keys, nodes, i, TextNode(text), text != [], json);
  }

  method AddFlag(texts: seq<bytes>, ghost before: seq<Pair>, keys: seq<bytes>, ghost nodes: seq<Option<Node>>, i: nat, f: Option<bool>)
    returns (after: seq<bytes>)
    requires i < |keys| == |nodes| && nodes[i] == FlagNode(f) && Written(texts, before, keys, nodes, i)
    ensures Written(after, before, keys, nodes, i + 1)
  {
    hide PairTexts, Collected;
    after := AddOptional(texts, before, keys, nodes, i, FlagNode(f), f.Some?, FlagText(f));
  }
}

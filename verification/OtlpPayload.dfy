/** The payload of one push request: records are grouped by their scope and resource, and each group becomes one part of an
    OTLP/JSON tree. */
module OtlpPayload {
  import opened Bytes
  import opened OtlpWire
  import opened OtlpJson
  import StateFile
  import Utf8

  datatype Scalar = Str(text: bytes) | Int(number: int64) | Double(bits: uint64) | Flag(flag: bool)

  datatype KV = KV(key: bytes, value: Scalar)

  type int32 = n: int | -0x8000_0000 <= n < 0x8000_0000

  datatype Entry = Entry(timeNs: int64, observedNs: int64, line: bytes, severityNumber: int32, severityText: bytes,
                         scopeName: bytes, scopeVersion: bytes, resource: seq<KV>, attributes: seq<KV>)

  /** What the forwarder fills in: the resource of records without one, and the scope of records without one. */
  datatype Defaults = Defaults(resource: seq<KV>, task: bytes, version: bytes)

  /** Records with the same key go into one group. */
  datatype Key = Key(scopeName: bytes, scopeVersion: bytes, resource: seq<KV>)

  function KeyOf(r: Entry): Key {
    Key(r.scopeName, r.scopeVersion, r.resource)
  }

  /* --- Grouping --- */

  /** The keys in the order in which they are seen first. */
  function Keys(rs: seq<Entry>): (keys: seq<Key>)
    ensures forall i, j :: 0 <= i < j < |keys| ==> keys[i] != keys[j]
  {
    if rs == [] then [] else
    var before, k := Keys(rs[..|rs| - 1]), KeyOf(rs[|rs| - 1]);
    if k in before then before else before + [k]
  }

  /** The records of a key, in their order. */
  function WithKey(rs: seq<Entry>, k: Key): seq<Entry> {
    if rs == [] then [] else
    WithKey(rs[..|rs| - 1], k) + if KeyOf(rs[|rs| - 1]) == k then [rs[|rs| - 1]] else []
  }

  /** One group for each key, with exactly its records. */
  predicate IsPartition(groups: seq<seq<Entry>>, rs: seq<Entry>) {
    && |groups| == |Keys(rs)|
    && forall i :: 0 <= i < |groups| ==> groups[i] == WithKey(rs, Keys(rs)[i])
  }

  method SameKVs(a: seq<KV>, b: seq<KV>) returns (same: bool)
    ensures same <==> a == b
  {
    if |a| != |b| {
      return false;
    }
    for i := 0 to |a|
      invariant a[..i] == b[..i]
    {
      if a[i] != b[i] {
        return false;
      }
    }
    assert a[..|a|] == a && b[..|b|] == b;
    same := true;
  }

  /** Puts each record into the first group whose first record is like it, or into a group of its own. */
  method Group(rs: seq<Entry>) returns (groups: seq<seq<Entry>>)
    ensures IsPartition(groups, rs)
  {
    groups := [];
    for n := 0 to |rs|
      invariant IsPartition(groups, rs[..n])
    {
      var r := rs[n];
      assert rs[..n + 1][..n] == rs[..n];
      FirstOfGroups(groups, rs[..n]);
      var found := false;
      var g := 0;
      while g < |groups| && !found
        invariant g <= |groups|
        invariant !found ==> KeyOf(r) !in Keys(rs[..n])[..g]
        invariant found ==> g < |groups| && KeyOf(groups[g][0]) == KeyOf(r)
        decreases |groups| - g, !found
      {
        var first := groups[g][0];
        var same := first.scopeName == r.scopeName && first.scopeVersion == r.scopeVersion;
        if same {
          same := SameKVs(first.resource, r.resource);
        }
        if same {
          found := true;
        } else {
          assert Keys(rs[..n])[..g + 1] == Keys(rs[..n])[..g] + [Keys(rs[..n])[g]];
          g := g + 1;
        }
      }
      ghost var before := groups;
      if found {
        groups := groups[g := groups[g] + [r]];
      } else {
        groups := groups + [[r]];
      }
      GroupAdded(before, rs[..n + 1], groups, if found then g else |before|);
    }
    assert rs[..|rs|] == rs;
  }

  lemma FirstOfGroups(groups: seq<seq<Entry>>, rs: seq<Entry>)
    requires IsPartition(groups, rs)
    ensures forall i :: 0 <= i < |groups| ==> groups[i] != [] && KeyOf(groups[i][0]) == Keys(rs)[i]
  {
    hide Keys, WithKey;
    forall i | 0 <= i < |groups| ensures groups[i] != [] && KeyOf(groups[i][0]) == Keys(rs)[i] {
      KeyIsThere(rs, Keys(rs)[i]);
      OnlyOfKey(rs, Keys(rs)[i]);
    }
  }

  lemma {:induction false} KeyIsThere(rs: seq<Entry>, k: Key)
    ensures k in Keys(rs) <==> WithKey(rs, k) != []
  {
    if rs != [] {
      KeyIsThere(rs[..|rs| - 1], k);
    }
  }

  lemma {:induction false} OnlyOfKey(rs: seq<Entry>, k: Key)
    ensures forall r :: r in WithKey(rs, k) ==> KeyOf(r) == k && r in rs
  {
    if rs != [] {
      OnlyOfKey(rs[..|rs| - 1], k);
    }
  }

  /** One more record: it is the last one of its group, or the only one of a new last group. */
  lemma GroupAdded(before: seq<seq<Entry>>, rs: seq<Entry>, after: seq<seq<Entry>>, g: nat)
    requires rs != [] && IsPartition(before, rs[..|rs| - 1])
    requires var r, keys := rs[|rs| - 1], Keys(rs[..|rs| - 1]);
             if g < |before| then keys[g] == KeyOf(r) && after == before[g := before[g] + [r]]
             else g == |before| && KeyOf(r) !in keys && after == before + [[r]]
    ensures IsPartition(after, rs)
  {
    var front, r := rs[..|rs| - 1], rs[|rs| - 1];
    KeyIsThere(front, KeyOf(r));
    KeysAfter(rs);
    hide Keys;
    forall i | 0 <= i < |after| ensures after[i] == WithKey(rs, Keys(rs)[i]) {
      WithKeyAfter(rs, Keys(rs)[i]);
    }
  }

  lemma KeysAfter(rs: seq<Entry>)
    requires rs != []
    ensures var k, keys := KeyOf(rs[|rs| - 1]), Keys(rs[..|rs| - 1]); Keys(rs) == if k in keys then keys else keys + [k]
  {
  }

  lemma WithKeyAfter(rs: seq<Entry>, k: Key)
    requires rs != []
    ensures var r, before := rs[|rs| - 1], WithKey(rs[..|rs| - 1], k); WithKey(rs, k) == if KeyOf(r) == k then before + [r] else before
  {
    var before := WithKey(rs[..|rs| - 1], k);
    assert before + [] == before;
  }

  function Flatten(groups: seq<seq<Entry>>): seq<Entry> {
    if groups == [] then [] else Flatten(groups[..|groups| - 1]) + groups[|groups| - 1]
  }

  /** No record is lost and none is doubled. */
  lemma {:induction false} PartitionIsAll(rs: seq<Entry>, groups: seq<seq<Entry>>)
    requires IsPartition(groups, rs)
    ensures multiset(Flatten(groups)) == multiset(rs)
  {
    hide Keys, WithKey, IsPartition, KeyOf;
    if rs != [] {
      var front, r := rs[..|rs| - 1], rs[|rs| - 1];
      var before, g := WithoutLast(rs, groups);
      PartitionIsAll(front, before);
      assert rs == front + [r];
      if g < |before| {
        FlattenUpdated(before, g, r);
      } else {
        assert groups[..|groups| - 1] == before;
      }
    } else {
      NoGroups(groups);
    }
  }

  lemma NoGroups(groups: seq<seq<Entry>>)
    requires IsPartition(groups, [])
    ensures groups == []
  {
  }

  /** The groups of all records but the last one, and where that one was added. */
  lemma WithoutLast(rs: seq<Entry>, groups: seq<seq<Entry>>) returns (before: seq<seq<Entry>>, g: nat)
    requires rs != [] && IsPartition(groups, rs)
    ensures IsPartition(before, rs[..|rs| - 1]) && g <= |before|
    ensures groups == if g < |before| then before[g := before[g] + [rs[|rs| - 1]]] else before + [[rs[|rs| - 1]]]
  {
    var front, r := rs[..|rs| - 1], rs[|rs| - 1];
    var keys := Keys(front);
    before := seq(|keys|, i requires 0 <= i < |keys| => WithKey(front, keys[i]));
    KeyIsThere(front, KeyOf(r));
    if KeyOf(r) in keys {
      g :| 0 <= g < |keys| && keys[g] == KeyOf(r);
    } else {
      g := |before|;
    }
    var expected := if g < |before| then before[g := before[g] + [r]] else before + [[r]];
    GroupAdded(before, rs, expected, g);
    assert forall i :: 0 <= i < |groups| ==> groups[i] == expected[i];
    assert groups == expected;
  }

  lemma {:induction false} FlattenUpdated(groups: seq<seq<Entry>>, g: nat, r: Entry)
    requires g < |groups|
    ensures multiset(Flatten(groups[g := groups[g] + [r]])) == multiset(Flatten(groups)) + multiset{r}
  {
    var n := |groups| - 1;
    var after := groups[g := groups[g] + [r]];
    assert |after| == |groups|;
    if g < n {
      FlattenUpdated(groups[..n], g, r);
      assert after[..n] == groups[..n][g := groups[g] + [r]];
    } else {
      assert after[..n] == groups[..n];
      assert multiset(groups[g] + [r]) == multiset(groups[g]) + multiset{r};
    }
  }
}

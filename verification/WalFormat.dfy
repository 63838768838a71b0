/** The file format of the write ahead log: records behind a 4 byte length, one after the other.
    Records and Rest say what a reader makes of any bytes at all: the records which can be read from
    the start, and what is left when the next one cannot. */
module WalFormat {
  import opened Bytes

  const HEADER: nat := 4

  /** What can be stored: at least one byte (a length of 0 is never written), at most what a uint32_t counts. */
  type Record = r: bytes | 0 < |r| < 0x1_0000_0000 witness [0]

  function Encode(r: Record): bytes {
    LittleEndian(|r|, HEADER) + r
  }

  function EncodeAll(rs: seq<Record>): bytes {
    if rs == [] then [] else Encode(rs[0]) + EncodeAll(rs[1..])
  }

  /** Where record k of rs starts. */
  function Offset(rs: seq<Record>, k: nat): nat
    requires k <= |rs|
  {
    |EncodeAll(rs[..k])|
  }

  /** The record at the start of s, if its length is there, is not 0, and fits into the rest of s. */
  function First(s: bytes): (r: Option<Record>)
    ensures r.Some? ==> |s| >= HEADER + |r.value|
  {
    if |s| < HEADER then None
    else
      var len := FromLittleEndian(s[..HEADER]);
      if len == 0 || len > |s| - HEADER then None
      else
        HeaderFits(s[..HEADER]);
        Some(s[HEADER..HEADER + len])
  }

  function Records(s: bytes): seq<Record>
    decreases |s|
  {
    match First(s)
    case None => []
    case Some(r) => [r] + Records(s[HEADER + |r|..])
  }

  function Rest(s: bytes): bytes
    decreases |s|
  {
    match First(s)
    case None => s
    case Some(r) => Rest(s[HEADER + |r|..])
  }

  /** A piece of a record which was cut off: less than the whole of one encoded record. */
  ghost predicate Torn(t: bytes) {
    exists r: Record :: |t| < |Encode(r)| && t == Encode(r)[..|t|]
  }

  lemma HeaderFits(h: bytes)
    requires |h| == HEADER
    ensures FromLittleEndian(h) < 0x1_0000_0000
  {
    FromLittleEndianBound(h);
    SpanValues();
  }

  lemma FirstOfEncode(r: Record, t: bytes)
    ensures First(Encode(r) + t) == Some(r)
    ensures (Encode(r) + t)[HEADER + |r|..] == t
  {
    SpanValues();
    LittleEndianRoundTrip(|r|, HEADER);
    var s := Encode(r) + t;
    assert s[..HEADER] == LittleEndian(|r|, HEADER);
    assert s[HEADER..HEADER + |r|] == r;
  }

  lemma FromLittleEndianInjective(a: bytes, b: bytes)
    requires |a| == |b| && FromLittleEndian(a) == FromLittleEndian(b)
    ensures a == b
  {
    if a != [] {
      SameDigits(a[0], FromLittleEndian(a[1..]), b[0], FromLittleEndian(b[1..]));
      FromLittleEndianInjective(a[1..], b[1..]);
      assert a == [a[0]] + a[1..] && b == [b[0]] + b[1..];
    }
  }

  lemma SameDigits(a: byte, x: nat, b: byte, y: nat)
    requires a + 256 * x == b + 256 * y
    ensures a == b && x == y
  {
  }

  /** The only bytes which read as a record are its encoding. */
  lemma FirstIsEncoded(s: bytes)
    requires First(s).Some?
    ensures s == Encode(First(s).value) + s[HEADER + |First(s).value|..]
  {
    var r := First(s).value;
    SpanValues();
    LittleEndianRoundTrip(|r|, HEADER);
    FromLittleEndianInjective(s[..HEADER], LittleEndian(|r|, HEADER));
  }

  /** Reading splits any bytes: what was read, encoded again, and the rest are the bytes. */
  lemma {:induction false} ParseSplits(s: bytes)
    ensures s == EncodeAll(Records(s)) + Rest(s)
    ensures First(Rest(s)).None?
    decreases |s|
  {
    match First(s)
    case None =>
    case Some(r) =>
      FirstIsEncoded(s);
      var t := s[HEADER + |r|..];
      ParseSplits(t);
      assert Records(s)[1..] == Records(t);
      assert Encode(r) + (EncodeAll(Records(t)) + Rest(t)) == Encode(r) + EncodeAll(Records(t)) + Rest(t);
  }

  /** One record is read, and then what follows it. */
  lemma ParseStep(r: Record, t: bytes)
    ensures Records(Encode(r) + t) == [r] + Records(t)
    ensures Rest(Encode(r) + t) == Rest(t)
  {
    FirstOfEncode(r, t);
  }

  /** Reading undoes writing, whatever follows. */
  lemma {:induction false} ParseEncoded(rs: seq<Record>, t: bytes)
    ensures Records(EncodeAll(rs) + t) == rs + Records(t)
    ensures Rest(EncodeAll(rs) + t) == Rest(t)
  {
    hide Records, Rest, First, Encode;
    if rs == [] {
      assert EncodeAll(rs) + t == t;
    } else {
      var u := EncodeAll(rs[1..]) + t;
      assert EncodeAll(rs) + t == Encode(rs[0]) + u;
      ParseStep(rs[0], u);
      ParseEncoded(rs[1..], t);
      assert [rs[0]] + (rs[1..] + Records(t)) == rs + Records(t);
    }
  }

  lemma {:induction false} EncodeAllConcat(a: seq<Record>, b: seq<Record>)
    ensures EncodeAll(a + b) == EncodeAll(a) + EncodeAll(b)
  {
    if a == [] {
      assert a + b == b;
    } else {
      assert (a + b)[1..] == a[1..] + b;
      EncodeAllConcat(a[1..], b);
      assert Encode(a[0]) + (EncodeAll(a[1..]) + EncodeAll(b)) == Encode(a[0]) + EncodeAll(a[1..]) + EncodeAll(b);
    }
  }

  lemma EncodeOne(r: Record)
    ensures EncodeAll([r]) == Encode(r)
  {
    assert EncodeAll([r]) == Encode(r) + EncodeAll([]);
  }

  /** Bytes added behind a file never change the records which could be read before. */
  lemma ParseExtends(s: bytes, t: bytes)
    ensures Records(s) <= Records(s + t)
    ensures Records(s + t) == Records(s) + Records(Rest(s) + t)
    ensures Rest(s + t) == Rest(Rest(s) + t)
  {
    ParseSplits(s);
    assert s + t == EncodeAll(Records(s)) + (Rest(s) + t);
    ParseEncoded(Records(s), Rest(s) + t);
  }

  lemma SplitAt(s: bytes, k: nat)
    requires k <= |Records(s)|
    ensures s == EncodeAll(Records(s)[..k]) + (EncodeAll(Records(s)[k..]) + Rest(s))
  {
    hide Records, Rest, EncodeAll;
    var rs := Records(s);
    ParseSplits(s);
    assert rs == rs[..k] + rs[k..];
    EncodeAllConcat(rs[..k], rs[k..]);
    Associative(EncodeAll(rs[..k]), EncodeAll(rs[k..]), Rest(s));
  }

  lemma DropFront(a: bytes, b: bytes)
    ensures (a + b)[|a|..] == b
  {
  }

  /** From the start of record k on, exactly the records from k on are read. */
  lemma ParseFrom(s: bytes, k: nat)
    requires k <= |Records(s)|
    ensures Offset(Records(s), k) <= |s|
    ensures Records(s[Offset(Records(s), k)..]) == Records(s)[k..]
    ensures Rest(s[Offset(Records(s), k)..]) == Rest(s)
  {
    var rs := Records(s);
    SplitAt(s, k);
    DropFront(EncodeAll(rs[..k]), EncodeAll(rs[k..]) + Rest(s));
    ParseEncoded(rs[k..], Rest(s));
    NoRecordInRest(s);
    hide Records, Rest, EncodeAll;
  }

  lemma NoRecordInRest(s: bytes)
    ensures Records(Rest(s)) == [] && Rest(Rest(s)) == Rest(s)
  {
    ParseSplits(s);
  }

  /** At the start of record k, record k is the next one, and behind the last one there is none. */
  lemma NextRecord(s: bytes, k: nat)
    requires k <= |Records(s)|
    ensures Offset(Records(s), k) <= |s|
    ensures First(s[Offset(Records(s), k)..]) == if k < |Records(s)| then Some(Records(s)[k]) else None
    ensures k == |Records(s)| ==> s[Offset(Records(s), k)..] == Rest(s)
  {
    ParseFrom(s, k);
  }

  /** The next record starts behind the one before it. */
  lemma OffsetStep(rs: seq<Record>, k: nat)
    requires k < |rs|
    ensures Offset(rs, k + 1) == Offset(rs, k) + HEADER + |rs[k]|
  {
    assert rs[..k + 1] == rs[..k] + [rs[k]];
    EncodeAllConcat(rs[..k], [rs[k]]);
    EncodeOne(rs[k]);
  }

  lemma {:induction false} OffsetIncreases(rs: seq<Record>, j: nat, k: nat)
    requires j < k <= |rs|
    ensures Offset(rs, j) < Offset(rs, k)
    decreases k
  {
    OffsetStep(rs, k - 1);
    if j < k - 1 {
      OffsetIncreases(rs, j, k - 1);
    }
  }

  lemma OffsetOfPrefix(a: seq<Record>, b: seq<Record>, k: nat)
    requires a <= b && k <= |a|
    ensures Offset(a, k) == Offset(b, k)
  {
    assert a[..k] == b[..k];
  }

  /** A piece of a record reads as nothing, and nothing of it is dropped. */
  lemma TornIsRest(t: bytes)
    requires Torn(t)
    ensures Records(t) == [] && Rest(t) == t
  {
    var r: Record :| |t| < |Encode(r)| && t == Encode(r)[..|t|];
    if |t| >= HEADER {
      SpanValues();
      LittleEndianRoundTrip(|r|, HEADER);
      assert t[..HEADER] == LittleEndian(|r|, HEADER);
    }
  }

  /** Records behind a file which ends with a record are read behind its records. */
  lemma CleanFileGrows(wal: bytes, more: seq<Record>)
    requires Rest(wal) == []
    ensures Records(wal + EncodeAll(more)) == Records(wal) + more
    ensures Rest(wal + EncodeAll(more)) == []
  {
    ParseExtends(wal, EncodeAll(more));
    ParseEncoded(more, []);
    assert EncodeAll(more) + [] == EncodeAll(more) && [] + EncodeAll(more) == EncodeAll(more);
  }
}

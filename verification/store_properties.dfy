/** What a scan of a well-formed log returns, and how the worker's view of
    the file relates to the writes it makes. */
module StoreProperties {

  import opened Results
  import opened Bytes
  import Q = Queries
  import opened Store

  /** One key/value pair as `put` lays it out. */
  datatype Record = Record(key: Bytes, value: Bytes)

  /** Every record's key and value are short enough for their lengths to
      survive the `as u32` cast. */
  predicate Fits(rs: seq<Record>) {
    forall i :: 0 <= i < |rs| ==> |rs[i].key| < U32_LIMIT && |rs[i].value| < U32_LIMIT
  }

  /** The bytes a sequence of `put`s appends, in order. */
  function Log(rs: seq<Record>): Bytes {
    if |rs| == 0 then [] else RecordBytes(rs[0].key, rs[0].value) + Log(rs[1..])
  }

  /** A record short enough for the cast keeps a log that fits. */
  lemma FitsAppend(rs: seq<Record>, r: Record)
    requires Fits(rs) && |r.key| < U32_LIMIT && |r.value| < U32_LIMIT
    ensures Fits(rs + [r])
  {
  }

  /** The index of the earliest record for `key`, if any. */
  function FirstWithKey(rs: seq<Record>, key: Bytes): (r: Option<nat>)
    ensures r.Some? ==> r.value < |rs| && rs[r.value].key == key
    ensures r.Some? ==> forall j :: 0 <= j < r.value ==> rs[j].key != key
    ensures r.None? ==> forall j :: 0 <= j < |rs| ==> rs[j].key != key
  {
    if |rs| == 0 then None
    else if rs[0].key == key then Some(0)
    else match FirstWithKey(rs[1..], key)
      case None => None
      case Some(i) => Some(i + 1)
  }

  /** The earliest record for the key is the one no earlier record matches. */
  lemma FirstWithKeyAt(rs: seq<Record>, key: Bytes, i: nat)
    requires i < |rs| && rs[i].key == key
    requires forall j :: 0 <= j < i ==> rs[j].key != key
    ensures FirstWithKey(rs, key) == Some(i)
  {
  }

  /** Logs concatenate as their records do. */
  lemma {:induction false} LogAppend(a: seq<Record>, b: seq<Record>)
    ensures Log(a + b) == Log(a) + Log(b)
    decreases |a|
  {
    if |a| == 0 {
      assert a + b == b;
    } else {
      assert (a + b)[0] == a[0] && (a + b)[1..] == a[1..] + b;
      LogAppend(a[1..], b);
    }
  }

  /** A record takes its 8 bytes of lengths plus its key and its value. */
  lemma LogSize(rs: seq<Record>)
    requires |rs| > 0
    ensures |Log(rs)| >= 8 + |rs[0].key| + |rs[0].value|
    ensures |rs| > 1 ==> |Log(rs)| >= 16 + |rs[0].key| + |rs[0].value|
  {
  }

  /** One unfolding of the scan at a record whose prefixes read `keyLen` and
      `valueLen` and whose key and value lie inside the view. */
  lemma ScanUnfold(view: Bytes, pos: nat, key: Bytes, keyLen: nat, valueLen: nat)
    requires pos + HEADER_LEN < |view| && pos + 8 + keyLen + valueLen <= |view|
    requires FromLe32(view[pos..pos + 4]) == keyLen && FromLe32(view[pos + 4..pos + 8]) == valueLen
    ensures ScanFrom(view, pos, key) ==
      if view[pos + 8..pos + 8 + keyLen] == key then Hit(pos + 8 + keyLen, view[pos + 8 + keyLen..pos + 8 + keyLen + valueLen])
      else ScanFrom(view, pos + 8 + keyLen + valueLen, key)
  {
  }

  /** What the scan should find in a log that starts at offset `p` of a view
      of length `len`: the value of the earliest record for the key, if that
      record starts more than 9 bytes before the end; otherwise nothing. */
  function Earliest(rs: seq<Record>, p: nat, len: nat, key: Bytes): Scan {
    match FirstWithKey(rs, key)
    case None => Miss
    case Some(i) =>
      var at := p + |Log(rs[..i])|;
      if at + HEADER_LEN < len then Hit(at + 8 + |key|, rs[i].value) else Miss
  }

  /** Past a record for another key, the expectation is that of the rest of
      the log, one record further on. */
  lemma EarliestSkip(rs: seq<Record>, p: nat, len: nat, key: Bytes)
    requires |rs| > 0 && rs[0].key != key
    ensures Earliest(rs, p, len, key) ==
      Earliest(rs[1..], p + 8 + |rs[0].key| + |rs[0].value|, len, key)
  {
    match FirstWithKey(rs[1..], key) {
      case None =>
      case Some(i) =>
        assert FirstWithKey(rs, key) == Some(i + 1);
        assert rs[..i + 1][1..] == rs[1..][..i];
        assert Log(rs[..i + 1]) == RecordBytes(rs[0].key, rs[0].value) + Log(rs[1..][..i]);
    }
  }

  /** A record with key `k` and value `v` starts at offset `p` of `view`:
      its two length prefixes decode to the lengths of `k` and `v`, which
      follow them. */
  predicate RecordIn(view: Bytes, p: nat, k: Bytes, v: Bytes) {
    && p + 8 + |k| + |v| <= |view|
    && FromLe32(view[p..p + 4]) == |k| && FromLe32(view[p + 4..p + 8]) == |v|
    && view[p + 8..p + 8 + |k|] == k && view[p + 8 + |k|..p + 8 + |k| + |v|] == v
  }

  /** The records `rs` lie in `view` one after another from offset `p` to its
      end, as the scan reads them. */
  predicate Laid(view: Bytes, p: nat, rs: seq<Record>)
    decreases |rs|
  {
    if |rs| == 0 then p == |view|
    else
      && RecordIn(view, p, rs[0].key, rs[0].value)
      && Laid(view, p + 8 + |rs[0].key| + |rs[0].value|, rs[1..])
  }

  /** A view that ends with the log of `rs` holds those records laid out
      from where the log starts. */
  lemma {:induction false} LaidLog(view: Bytes, p: nat, rs: seq<Record>)
    requires Fits(rs) && p <= |view| && view[p..] == Log(rs)
    ensures Laid(view, p, rs)
    decreases |rs|
  {
    if |rs| > 0 {
      var k, v := rs[0].key, rs[0].value;
      assert view[p..] == RecordBytes(k, v) + Log(rs[1..]);
      RecordAt(view, p, k, v, Log(rs[1..]));
      LaidLog(view, p + 8 + |k| + |v|, rs[1..]);
    }
  }

  /** What the scan should find, record by record: nothing once a record
      starts within 9 bytes of the end, the value of a record for the key,
      and otherwise what it should find after that record. */
  function Expected(rs: seq<Record>, p: nat, len: nat, key: Bytes): Scan
    decreases |rs|
  {
    if |rs| == 0 || p + HEADER_LEN >= len then Miss
    else if rs[0].key == key then Hit(p + 8 + |key|, rs[0].value)
    else Expected(rs[1..], p + 8 + |rs[0].key| + |rs[0].value|, len, key)
  }

  /** The record-by-record expectation is the first-match rule. */
  lemma {:induction false} ExpectedIsEarliest(rs: seq<Record>, p: nat, len: nat, key: Bytes)
    ensures Expected(rs, p, len, key) == Earliest(rs, p, len, key)
    decreases |rs|
  {
    if |rs| == 0 || p + HEADER_LEN >= len {
    } else if rs[0].key == key {
      assert FirstWithKey(rs, key) == Some(0);
      assert Log(rs[..0]) == [];
    } else {
      ExpectedIsEarliest(rs[1..], p + 8 + |rs[0].key| + |rs[0].value|, len, key);
      EarliestSkip(rs, p, len, key);
    }
  }

  /** A record for the key at `p`, more than 9 bytes before the end, is
      where the scan stops, on that record's value. */
  lemma ScanRecordHit(view: Bytes, p: nat, key: Bytes, v: Bytes)
    requires p + HEADER_LEN < |view| && RecordIn(view, p, key, v)
    ensures ScanFrom(view, p, key) == Hit(p + 8 + |key|, v)
  {
    ScanUnfold(view, p, key, |key|, |v|);
  }

  /** A record for another key at `p`, more than 9 bytes before the end, is
      skipped whole. */
  lemma ScanRecordSkip(view: Bytes, p: nat, key: Bytes, k: Bytes, v: Bytes)
    requires p + HEADER_LEN < |view| && RecordIn(view, p, k, v) && k != key
    ensures ScanFrom(view, p, key) == ScanFrom(view, p + 8 + |k| + |v|, key)
  {
    ScanUnfold(view, p, key, |k|, |v|);
  }

  /** A record whose key lies inside the view but whose value runs past its
      end: the scan panics on it when it holds the key, and otherwise skips
      it, past the end of the view, and misses. */
  lemma TruncatedValue(view: Bytes, p: nat, k: Bytes, valueLen: nat, key: Bytes)
    requires p + HEADER_LEN < |view| && p + 8 + |k| <= |view| < p + 8 + |k| + valueLen
    requires FromLe32(view[p..p + 4]) == |k| && FromLe32(view[p + 4..p + 8]) == valueLen
    requires view[p + 8..p + 8 + |k|] == k
    ensures k == key ==> ScanFrom(view, p, key) == OutOfBounds
    ensures k != key ==> ScanFrom(view, p, key) == Miss
  {
  }

  /** The scan over records laid out from `p` finds what `Expected` says,
      and in particular never panics. */
  lemma {:induction false} ScanLaid(view: Bytes, p: nat, rs: seq<Record>, key: Bytes)
    requires Laid(view, p, rs)
    ensures ScanFrom(view, p, key) == Expected(rs, p, |view|, key)
    decreases |rs|
  {
    if p + HEADER_LEN < |view| {
      if rs[0].key == key {
        ScanRecordHit(view, p, key, rs[0].value);
      } else {
        ScanRecordSkip(view, p, key, rs[0].key, rs[0].value);
        ScanLaid(view, p + 8 + |rs[0].key| + |rs[0].value|, rs[1..], key);
      }
    }
  }

  /** The scan of a log that fills the view from offset `p` follows the
      first-match rule. */
  lemma ScanLog(view: Bytes, p: nat, rs: seq<Record>, key: Bytes)
    requires Fits(rs) && p <= |view| && view[p..] == Log(rs)
    ensures ScanFrom(view, p, key) == Earliest(rs, p, |view|, key)
  {
    LaidLog(view, p, rs);
    ScanLaid(view, p, rs, key);
    ExpectedIsEarliest(rs, p, |view|, key);
  }

  /** The first-match rule: in a file made of the header and a log, `get`
      returns the value of the EARLIEST record for the key (later records for
      it are never read) when that record starts more than 9 bytes before the
      end of the file. */
  lemma GetFindsEarliest(header: Bytes, rs: seq<Record>, key: Bytes, i: nat)
    requires |header| == HEADER_LEN && Fits(rs)
    requires i < |rs| && rs[i].key == key && forall j :: 0 <= j < i ==> rs[j].key != key
    requires HEADER_LEN + |Log(rs[..i])| + HEADER_LEN < |header + Log(rs)|
    ensures Get(Open(header + Log(rs)), key) ==
      Step(Open(header + Log(rs)).(pos := HEADER_LEN + |Log(rs[..i])| + 8 + |key|), Ok(rs[i].value))
  {
    ScanLog(header + Log(rs), HEADER_LEN, rs, key);
    FirstWithKeyAt(rs, key, i);
  }

  /** A key no record holds is `KeyNotFound`, with the cursor back at 9. */
  lemma GetMissesAbsentKey(header: Bytes, rs: seq<Record>, key: Bytes)
    requires |header| == HEADER_LEN && Fits(rs)
    requires forall j :: 0 <= j < |rs| ==> rs[j].key != key
    ensures Get(Open(header + Log(rs)), key) == Step(Open(header + Log(rs)), Err(KeyNotFound))
  {
    ScanLog(header + Log(rs), HEADER_LEN, rs, key);
  }

  /** The `pos + 9 >= len` guard: the only record the scan never reaches is a
      last record whose key and value hold at most one byte between them; a
      `get` for its key, with no earlier record for it, misses. */
  lemma ShortLastRecordHidden(header: Bytes, rs: seq<Record>, key: Bytes, i: nat)
    requires |header| == HEADER_LEN && Fits(rs)
    requires i < |rs| && rs[i].key == key && forall j :: 0 <= j < i ==> rs[j].key != key
    ensures HEADER_LEN + |Log(rs[..i])| + HEADER_LEN >= |header + Log(rs)| <==>
      i == |rs| - 1 && |rs[i].key| + |rs[i].value| <= 1
    ensures i == |rs| - 1 && |rs[i].key| + |rs[i].value| <= 1 ==>
      Get(Open(header + Log(rs)), key).result == Err(KeyNotFound)
  {
    assert rs == rs[..i] + rs[i..];
    LogAppend(rs[..i], rs[i..]);
    LogSize(rs[i..]);
    if i == |rs| - 1 {
      assert rs[i..] == [rs[i]];
      assert Log(rs[i..]) == RecordBytes(rs[i].key, rs[i].value);
    }
    ScanLog(header + Log(rs), HEADER_LEN, rs, key);
    FirstWithKeyAt(rs, key, i);
  }

  /** A `get` never panics on a file made of the header and a log. */
  lemma GetNeverPanicsOnLog(header: Bytes, rs: seq<Record>, key: Bytes)
    requires |header| == HEADER_LEN && Fits(rs)
    ensures Get(Open(header + Log(rs)), key).result != Panic
  {
    ScanLog(header + Log(rs), HEADER_LEN, rs, key);
  }

  /** `put` appends exactly the record's bytes: a file that holds the header
      and a log holds, after the put, the header and the log with the record
      appended. */
  lemma PutExtendsLog(header: Bytes, rs: seq<Record>, db: SunsetDb, key: Bytes, value: Bytes)
    requires db.file == header + Log(rs)
    ensures Put(db, key, value, true).db.file == header + Log(rs + [Record(key, value)])
  {
    LogExtend(header, rs, key, value);
  }

  /** A log with one more record is the old log followed by its bytes. */
  lemma LogExtend(header: Bytes, rs: seq<Record>, key: Bytes, value: Bytes)
    ensures header + Log(rs) + RecordBytes(key, value) == header + Log(rs + [Record(key, value)])
  {
    var x, y, z := header, Log(rs), RecordBytes(key, value);
    assert Log(rs + [Record(key, value)]) == y + z by {
      LogSingle(Record(key, value));
      LogAppend(rs, [Record(key, value)]);
    }
    assert x + y + z == x + (y + z);
  }

  /** The log of one record is its bytes. */
  lemma LogSingle(r: Record)
    ensures Log([r]) == RecordBytes(r.key, r.value)
  {
  }

  /** Writes are invisible to the running worker: the view is the file as it
      was at open time, so after a served `put` every `get` replies exactly as
      it would have before it. */
  lemma PutInvisibleToGet(db: SunsetDb, key: Bytes, value: Bytes, seekOk: bool, other: Bytes)
    requires Ready(db)
    ensures var put := ServeStep(db, Q.Query(Q.Put, key, Some(value)), seekOk);
      var get := Q.Query(Q.Get, other, None);
      && put.Served? && put.db.view == db.view && put.db.pos == db.pos
      && ServeStep(put.db, get, seekOk).Served? == ServeStep(db, get, seekOk).Served?
      && (ServeStep(db, get, seekOk).Served? ==>
           ServeStep(put.db, get, seekOk).reply == ServeStep(db, get, seekOk).reply)
  {
  }

  /** Read-after-write does not hold: on a file that is only the header, a
      served `put` of any key is followed by a `get` of that key that sends no
      reply. */
  lemma ReadAfterPutMisses(header: Bytes, key: Bytes, value: Bytes)
    requires |header| == HEADER_LEN
    ensures var put := ServeStep(Open(header), Q.Query(Q.Put, key, Some(value)), true);
      && put.Served? && |put.db.file| > HEADER_LEN
      && ServeStep(put.db, Q.Query(Q.Get, key, None), true) == Served(put.db, None)
  {
  }

  /** Reopening the file makes a `put` visible: for a key the log did not
      hold, `get` on the reopened file returns the value, unless key and value
      together are at most one byte long. */
  lemma ReopenSeesNewKey(header: Bytes, rs: seq<Record>, key: Bytes, value: Bytes)
    requires |header| == HEADER_LEN && Fits(rs)
    requires |key| < U32_LIMIT && |value| < U32_LIMIT
    requires forall j :: 0 <= j < |rs| ==> rs[j].key != key
    ensures var db := Open(header + Log(rs));
      var file := ServeStep(db, Q.Query(Q.Put, key, Some(value)), true).db.file;
      Get(Open(file), key).result == if |key| + |value| > 1 then Ok(value) else Err(KeyNotFound)
  {
    var db := Open(header + Log(rs));
    var file := ServeStep(db, Q.Query(Q.Put, key, Some(value)), true).db.file;
    assert file == Put(db, key, value, true).db.file;
    PutExtendsLog(header, rs, db, key, value);
    NewKeyFound(header, rs, key, value);
  }

  /** The last record of a log, for a key no earlier record holds, is what
      `get` finds unless it is at most one byte long beyond its prefixes. */
  lemma NewKeyFound(header: Bytes, rs: seq<Record>, key: Bytes, value: Bytes)
    requires |header| == HEADER_LEN && Fits(rs)
    requires |key| < U32_LIMIT && |value| < U32_LIMIT
    requires forall j :: 0 <= j < |rs| ==> rs[j].key != key
    ensures Get(Open(header + Log(rs + [Record(key, value)])), key).result ==
      if |key| + |value| > 1 then Ok(value) else Err(KeyNotFound)
  {
    ScanNewKey(header, rs, key, value);
  }

  /** The scan behind `NewKeyFound`: it stops on the appended record's value,
      or runs out within 9 bytes of the end. */
  lemma ScanNewKey(header: Bytes, rs: seq<Record>, key: Bytes, value: Bytes)
    requires |header| == HEADER_LEN && Fits(rs)
    requires |key| < U32_LIMIT && |value| < U32_LIMIT
    requires forall j :: 0 <= j < |rs| ==> rs[j].key != key
    ensures var m := header + Log(rs + [Record(key, value)]);
      ScanFrom(m, HEADER_LEN, key) ==
        if |key| + |value| > 1 then Hit(HEADER_LEN + |Log(rs)| + 8 + |key|, value) else Miss
  {
    var rs' := rs + [Record(key, value)];
    var m := header + Log(rs');
    FitsAppend(rs, Record(key, value));
    assert |m| == HEADER_LEN + |Log(rs)| + 8 + |key| + |value| by {
      LogExtend(header, rs, key, value);
    }
    assert m[HEADER_LEN..] == Log(rs');
    ScanLog(m, HEADER_LEN, rs', key);
    EarliestLast(rs, key, value, HEADER_LEN, |m|);
  }

  /** A record appended for a key no earlier record holds is the earliest
      one for it, after the whole of the earlier log. */
  lemma EarliestLast(rs: seq<Record>, key: Bytes, value: Bytes, p: nat, len: nat)
    requires forall j :: 0 <= j < |rs| ==> rs[j].key != key
    ensures var at := p + |Log(rs)|;
      Earliest(rs + [Record(key, value)], p, len, key) ==
        if at + HEADER_LEN < len then Hit(at + 8 + |key|, value) else Miss
  {
    var rs' := rs + [Record(key, value)];
    FirstWithKeyAt(rs', key, |rs|);
    assert rs'[..|rs|] == rs;
  }

  /** `del` writes nothing, so a key it was asked to delete is still found. */
  lemma DelDoesNotHide(db: SunsetDb, key: Bytes)
    requires Ready(db) && Get(db, key).result.Ok?
    ensures var del := ServeStep(db, Q.Query(Q.Del, key, None), true);
      del == Served(db, None) && ServeStep(del.db, Q.Query(Q.Get, key, None), true).reply == Some(Get(db, key).result.value)
  {
  }
}

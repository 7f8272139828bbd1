/** The storage engine of `src/file.rs`: an append-only file of
    length-prefixed records behind a 9-byte header, read through a snapshot
    of the file taken when the store is opened (the source's `map`, called
    `view` here because `map` is a Dafny keyword), with a scan cursor (`pos`)
    kept between calls. */
module Store {

  import opened Results
  import opened Bytes
  import opened Queries

  /** The size of the header the scan skips; also where the cursor rests
      between requests. */
  const HEADER_LEN: nat := 9

  /** The store's error enum. `InsertFailed` and `Other` are declared by the
      source but never produced. */
  datatype Error = KeyNotFound | InsertFailed | Io | Other(message: string)

  /** A `SunsetDb`: the bytes of the file, the memory-mapped view of the file
      taken at open time, and the scan cursor into that view. The file handle
      and the channels are not state of their own here. */
  datatype SunsetDb = SunsetDb(file: Bytes, view: Bytes, pos: nat)

  /** What an operation leaves behind and how it ended. */
  datatype Step<+T> = Step(db: SunsetDb, result: Outcome<T, Error>)

  /** Where a scan of the view ended: on the record holding the key, with the
      cursor at the start of its value; past the end of the view; or on a
      slice beyond the view, which panics. */
  datatype Scan = Hit(at: nat, value: Bytes) | Miss | OutOfBounds

  /** The state the worker keeps between requests: the cursor back on the
      first record, and a view that is a snapshot of an earlier file. */
  predicate Ready(db: SunsetDb) {
    db.pos == HEADER_LEN && db.view <= db.file
  }

  /** `SunsetDb::new` once the file is open and mapped: the view is the whole
      file and the cursor sits after the header. */
  function Open(file: Bytes): (db: SunsetDb)
    ensures db.file == file && db.view == file && Ready(db)
  {
    SunsetDb(file, file, HEADER_LEN)
  }

  /** The bytes `put` writes: the key's and the value's lengths as
      little-endian `u32`s (each cast with `as u32`), then the key, then the
      value. */
  function RecordBytes(key: Bytes, value: Bytes): (r: Bytes)
    ensures |r| == 8 + |key| + |value|
    ensures FromLe32(r[..4]) == AsU32(|key|) && FromLe32(r[4..8]) == AsU32(|value|)
    ensures r[8..8 + |key|] == key && r[8 + |key|..] == value
  {
    Le32RoundTrip(AsU32(|key|));
    Le32RoundTrip(AsU32(|value|));
    var r := ToLe32(AsU32(|key|)) + ToLe32(AsU32(|value|)) + key + value;
    assert r[..4] == ToLe32(AsU32(|key|)) && r[4..8] == ToLe32(AsU32(|value|));
    assert r[8..8 + |key|] == key;
    r
  }

  /** `SunsetDb::put`: seek to the end of the file, then append one record.
      The view and the cursor are untouched. A failed seek (`seekOk` false) is
      the `Io` error and writes nothing; failed writes are not modelled. */
  function Put(db: SunsetDb, key: Bytes, value: Bytes, seekOk: bool): (s: Step<()>)
    ensures s.db.view == db.view && s.db.pos == db.pos
    ensures !seekOk ==> s == Step(db, Err(Io))
    ensures seekOk ==> s.result == Ok(())
    ensures seekOk ==> db.file < s.db.file && |s.db.file| == |db.file| + 8 + |key| + |value|
  {
    if !seekOk then Step(db, Err(Io))
    else Step(db.(file := db.file + RecordBytes(key, value)), Ok(()))
  }

  /** What a successful `put` appends reads back as the record: the two
      prefixes decode to the key's and the value's lengths (modulo 2^32), and
      the key and the value follow them. */
  lemma PutLayout(db: SunsetDb, key: Bytes, value: Bytes)
    ensures var n, f := |db.file|, Put(db, key, value, true).db.file;
      && |f| == n + 8 + |key| + |value|
      && f[..n] == db.file
      && FromLe32(f[n..n + 4]) == AsU32(|key|)
      && FromLe32(f[n + 4..n + 8]) == AsU32(|value|)
      && f[n + 8..n + 8 + |key|] == key
      && f[n + 8 + |key|..] == value
  {
    var n, f := |db.file|, Put(db, key, value, true).db.file;
    assert f[n..] == RecordBytes(key, value) + [];
    RecordAt(f, n, key, value, []);
  }

  /** Where the fields of a record lie in a view that holds its bytes at
      `p`, followed by `rest`. */
  lemma RecordAt(m: Bytes, p: nat, k: Bytes, v: Bytes, rest: Bytes)
    requires p <= |m| && m[p..] == RecordBytes(k, v) + rest
    ensures p + 8 + |k| + |v| <= |m|
    ensures FromLe32(m[p..p + 4]) == AsU32(|k|)
    ensures FromLe32(m[p + 4..p + 8]) == AsU32(|v|)
    ensures m[p + 8..p + 8 + |k|] == k
    ensures m[p + 8 + |k|..p + 8 + |k| + |v|] == v
    ensures m[p + 8 + |k| + |v|..] == rest
  {
    var s, a, b := m[p..], ToLe32(AsU32(|k|)), ToLe32(AsU32(|v|));
    assert s == a + b + k + v + rest;
    assert m[p..p + 4] == s[..4] == a;
    assert m[p + 4..p + 8] == s[4..8] == b;
    assert m[p + 8..p + 8 + |k|] == s[8..8 + |k|] == k;
    assert m[p + 8 + |k|..p + 8 + |k| + |v|] == s[8 + |k|..8 + |k| + |v|] == v;
    assert m[p + 8 + |k| + |v|..] == s[8 + |k| + |v|..] == rest;
    Le32RoundTrip(AsU32(|k|));
    Le32RoundTrip(AsU32(|v|));
  }

  /** `SunsetDb::del`: does nothing and reports success. */
  function Del(db: SunsetDb, key: Bytes): (s: Step<()>)
    ensures s.db == db && s.result == Ok(())
  {
    Step(db, Ok(()))
  }

  /** The loop of `SunsetDb::get` from cursor `pos`. It stops with `Miss` once
      `pos + 9 >= view.len()`; otherwise it reads the two length prefixes and
      returns the first record whose key equals `key`, or skips the record by
      exactly `8 + key_len + value_len` bytes. Slicing a key, or the value of
      the matching record, past the end of the view is `OutOfBounds`; the
      value of a skipped record is never sliced. */
  function ScanFrom(view: Bytes, pos: nat, key: Bytes): (r: Scan)
    ensures pos + HEADER_LEN >= |view| ==> r == Miss
    decreases |view| - pos
  {
    if pos + HEADER_LEN >= |view| then Miss
    else
      var keyLen := FromLe32(view[pos..pos + 4]);
      var valueLen := FromLe32(view[pos + 4..pos + 8]);
      var keyAt := pos + 8;
      if keyAt + keyLen > |view| then OutOfBounds
      else if view[keyAt..keyAt + keyLen] == key then
        var valueAt := keyAt + keyLen;
        if valueAt + valueLen > |view| then OutOfBounds
        else Hit(valueAt, view[valueAt..valueAt + valueLen])
      else ScanFrom(view, keyAt + keyLen + valueLen, key)
  }

  /** The record of `view` that holds `key` has its value at `at`: the two
      length prefixes read back as the key's and the value's lengths, and the
      key and then `value` follow them. */
  predicate RecordBefore(view: Bytes, key: Bytes, at: nat, value: Bytes) {
    && 8 + |key| <= at && at + |value| <= |view|
    && view[at - |key|..at] == key
    && view[at..at + |value|] == value
    && FromLe32(view[at - |key| - 8..at - |key| - 4]) == |key|
    && FromLe32(view[at - |key| - 4..at - |key|]) == |value|
  }

  /** A hit is a record of the view at or after the cursor. */
  lemma {:induction false} ScanHit(view: Bytes, pos: nat, key: Bytes)
    requires ScanFrom(view, pos, key).Hit?
    ensures var r := ScanFrom(view, pos, key);
      pos + 8 + |key| <= r.at && RecordBefore(view, key, r.at, r.value)
    decreases |view| - pos
  {
    var keyLen := FromLe32(view[pos..pos + 4]);
    var valueLen := FromLe32(view[pos + 4..pos + 8]);
    var keyAt := pos + 8;
    if view[keyAt..keyAt + keyLen] != key {
      ScanHit(view, keyAt + keyLen + valueLen, key);
    }
  }

  /** `SunsetDb::get`: a scan of the view from the current cursor. A miss is
      `KeyNotFound` with the cursor back at 9; a hit is the record's value,
      with the cursor left at the start of that value. */
  function Get(db: SunsetDb, key: Bytes): (s: Step<Bytes>)
    ensures db.pos + HEADER_LEN >= |db.view| ==> s == Step(db.(pos := HEADER_LEN), Err(KeyNotFound))
    ensures s.result.Err? ==> s.result.error == KeyNotFound && s.db == db.(pos := HEADER_LEN)
    ensures s.result.Ok? ==>
      var v, at := s.result.value, s.db.pos;
      && s.db.file == db.file && s.db.view == db.view
      && db.pos + 8 + |key| <= at && RecordBefore(db.view, key, at, v)
  {
    match ScanFrom(db.view, db.pos, key)
    case Miss => Step(db.(pos := HEADER_LEN), Err(KeyNotFound))
    case Hit(at, v) =>
      ScanHit(db.view, db.pos, key);
      Step(db.(pos := at), Ok(v))
    case OutOfBounds => Step(db, Panic)
  }

  /** What one turn of the `serve` loop leaves: the store and the reply sent
      on `tx`, if any; or the worker thread ended by a panic in `get`. */
  datatype Served = Served(db: SunsetDb, reply: Option<Bytes>) | WorkerPanicked

  /** The body of `serve` for one received query. Only a `get` that finds its
      key sends a reply, after which the cursor goes back to 9. A `get` that
      misses, a `put` without a value, every `put` and every `del` continue
      without a reply. `seekOk` is whether `put`'s seek succeeds. */
  function ServeStep(db: SunsetDb, q: Query, seekOk: bool): (s: Served)
    ensures s.WorkerPanicked? <==> q.qtype.Get? && Get(db, q.key).result.Panic?
    ensures s.Served? ==> s.db.view == db.view
    ensures s.Served? && s.reply.Some? <==> q.qtype.Get? && Get(db, q.key).result.Ok?
    ensures s.Served? && s.reply.Some? ==> s.reply.value == Get(db, q.key).result.value
    ensures q.qtype.Del? ==> s == Served(db, None)
    ensures q.qtype.Put? && (q.value.None? || !seekOk) ==> s == Served(db, None)
    ensures s.Served? && s.db.file != db.file ==>
      q.qtype.Put? && q.value.Some? && seekOk && db.file < s.db.file
    ensures Ready(db) && s.Served? ==> Ready(s.db)
  {
    match q.qtype
    case Get =>
      var g := Get(db, q.key);
      (match g.result
       case Ok(v) => Served(g.db.(pos := HEADER_LEN), Some(v))
       case Err(_) => Served(g.db, None)
       case Panic => WorkerPanicked)
    case Put =>
      (match q.value
       case None => Served(db, None)
       case Some(v) =>
         var p := Put(db, q.key, v, seekOk);
         assert seekOk ==> p.db.file == db.file + p.db.file[|db.file|..];
         Served(p.db, None))
    case Del => Served(Del(db, q.key).db, None)
  }
}

# sunset: the log engine and the line protocol, in Dafny

This project models the two deterministic parts of the sunset key-value server.

**The log engine `SunsetDb` (`src/file.rs`).**
- The file is a 9-byte header followed by records. Each record is the key's length and the value's length as little-endian `u32`s, then the key, then the value.
- `put` appends a record.
- `get` scans a snapshot (`map`) of the file that was taken when the store was opened. The scan uses a cursor `pos` that starts at 9. It returns the value of the first record whose key matches.
- `del` does nothing.
- One turn of the `serve` loop dispatches one query and decides whether a reply is sent.

**The line protocol (`src/query.rs`).**
- `Query::from_buffer` splits a line into a verb (`[get]`, `[put]`, `[del]`), a key and an optional value.
- `to_string` and `encode` write a query followed by CR LF.
- The codec's `decode` is a one-field state machine. It either splits off the first CR LF-terminated frame, or records how far it has searched.

**Modules and files.**
- `bytes.dfy`:
  - `Results`: `Option`, and `Outcome`, which is Ok, Err or Panic.
  - `Bytes`: byte strings, `as u32`, little-endian encoding, CR LF search.
- `utf8.dfy`: the UTF-8 check behind `str::from_utf8`.
- `query.dfy`: the protocol (`Queries`).
- `query_properties.dfy`: the round trip and the decoder's cursor (`QueryProperties`).
- `store.dfy`: the engine and the `serve` step (`Store`).
- `store_properties.dfy`: what a scan of a well-formed log returns, and how writes relate to the snapshot (`StoreProperties`).

**Modelling choices.**
- Every operation is a pure function. The file is a byte sequence, the memory map is a second byte sequence, and the cursor is a `nat`.
- A panic in the source is a `Panic` outcome, not a precondition. The functions are therefore total, and the lemmas show when a panic cannot happen. Panics come from a slice beyond the end, `qvec[1]` on a one-field line, `key.len() - 2` below zero (with overflow checks on, see below), or `buf[pos..]` past the end. `from_buffer`'s panics cannot be reached through `decode`, because every frame it cuts off ends in CR LF (`QueryProperties.DecodeNoPanic`).
- The seek in `put` may fail. Whether it succeeds is a parameter (`seekOk`).

**The code is modelled as written.** The intended design for this store differs in four places; the model follows the code in each:
- `get` returns the **earliest** record for a key, not the latest (`StoreProperties.GetFindsEarliest`).
- `del` writes no tombstone, so a deleted key is still found (`StoreProperties.DelDoesNotHide`).
- The snapshot is never refreshed after `put`, so a `get` served after a `put` cannot see it (`StoreProperties.PutInvisibleToGet`, `StoreProperties.ReadAfterPutMisses`). Only reopening the file shows it (`StoreProperties.ReopenSeesNewKey`).
- A truncated record at the end of the view is treated as the end of the log only sometimes. A record that starts within 9 bytes of the end is never read. The value of a record for another key is never sliced, so a value cut short there is skipped past the end and the scan misses. A key cut short, or the cut-short value of the record that holds the key, is sliced past the end and panics (`Store.ScanFrom` returns `OutOfBounds`; `StoreProperties.TruncatedValue`).

The scan's guard `pos + 9 >= len` also hides a last record whose key and value are at most one byte long together (`StoreProperties.ShortLastRecordHidden`).

## Model

| member | source | states |
|---|---|---|
| Bytes.AsU32 | src/file.rs:143-146 | `len() as u32` keeps a length below 2^32 unchanged and always yields a `u32` |
| Bytes.Le32RoundTrip | src/file.rs:119-123 | `from_le_bytes` of the four bytes `to_le_bytes(n)` writes is `n` |
| Bytes.Le32Canonical | src/file.rs:119-123 | every four bytes are `to_le_bytes` of the number `from_le_bytes` reads from them, so the encoding is a bijection |
| Bytes.ToLe32 | src/file.rs:143-146 | `to_le_bytes` of a `u32` is four bytes |
| Bytes.FromLe32 | src/file.rs:119-123 | `from_le_bytes` of four bytes is a `u32` |
| Bytes.LeRoundTrip | src/file.rs:143-146 | reading back k little-endian bytes written from a number below 256^k gives the number |
| Bytes.FindCrlf | src/query.rs:105 | `windows(2).position` from `pos`: the index found holds CR LF and none before it from `pos` does; no index is found only when no CR LF starts at or after `pos` |
| Utf8.ScalarLength | src/query.rs:73 | the length of a well-formed UTF-8 encoding at the head of the bytes is at most 4, and 1 for an ASCII byte |
| Utf8.Valid | src/query.rs:73-76 | the `str::from_utf8` check: a valid string never starts with a continuation byte, an overlong lead 0xC0 or 0xC1, or a lead above 0xF4 |
| Utf8.AsciiIsValid | src/query.rs:73 | ASCII keys and values pass `str::from_utf8` |
| Queries.Verb | src/query.rs:84-92 | `Display for QueryType` prints five bytes holding no space and no CR |
| Queries.ParseVerb | src/query.rs:39-44 | a token is accepted exactly when it is one `Display` prints, and it parses to the verb that prints it |
| Queries.SplitN3 | src/query.rs:37 | `splitn(3, ' ')`: one to three fields that, joined with spaces, give the line back; only a third field may hold a space |
| Queries.UpToCr | src/query.rs:48-49 | the value up to its first CR: a prefix without CR, ended by a CR or by the end of the field |
| Queries.FromBuffer | src/query.rs:36-61 | the only error is `InvalidInput`, and a parsed key never holds a space |
| Queries.VerbField | src/query.rs:37-44 | the first field is a verb exactly when the line is that verb or starts with it and a space |
| Queries.FromBufferVerb | src/query.rs:39-44 | `from_buffer` fails with an error exactly when the line leads with no verb; a parsed query's verb is the one the line leads with |
| Queries.FromBufferPanics | src/query.rs:45-54 | `from_buffer` panics exactly on a verb followed by nothing, or by a space and a space-free field under two bytes |
| Queries.FromBufferFields | src/query.rs:45-54 | with a value, the key is the second field as it stands and the value is the rest up to its first CR; without one, the key is the second field less its last two bytes |
| Queries.Len | src/query.rs:63-70 | the size hint is the length of the formatted query, plus one when there is no value |
| Queries.Serialize | src/query.rs:77-79 | the formatted query starts with the verb and a space, and holds no CR when the key and the value hold none |
| Queries.ToString | src/query.rs:72-81 | fails exactly when the key, or a present value, is not UTF-8; otherwise the output is the verb, a space and the key, followed by a space and the value when there is one |
| Queries.NewCodec | src/query.rs:95-97 | a new codec has searched nothing, so its cursor is valid for every buffer |
| Queries.Encode | src/query.rs:132-141 | never panics; fails with `InvalidData` exactly when `to_string` fails; otherwise it keeps `buf` as a prefix and appends the formatted query and CR LF, within the reserved size |
| Queries.Framed | src/query.rs:121-124 | `decode` passes on `from_buffer`'s result: a query becomes `Some` of it, an error stays the same error |
| Queries.Decode | src/query.rs:104-125 | a cursor beyond the buffer panics. With no CR LF at or after the cursor, the buffer is kept and the cursor moves to its end. Otherwise the prefix through the first such CR LF is cut off and parsed, and the cursor returns to 0 |
| QueryProperties.UpToCrStops | src/query.rs:47-49 | the CR LF the codec leaves on a value is chopped off |
| QueryProperties.SplitThree | src/query.rs:37 | a line with two space-free fields and a tail splits into exactly those three fields |
| QueryProperties.SplitTwo | src/query.rs:37 | a line with one space splits into its two fields |
| QueryProperties.ParseSerialized | src/query.rs:45-54 | `from_buffer` of a formatted query plus CR LF gives the query back |
| QueryProperties.DecodeEncode | src/query.rs:104-125 | round trip: the bytes `encode` writes decode, with a new codec, to the same query; anything after them stays in the buffer and the codec is back at 0 |
| QueryProperties.DecodeNoPanic | src/query.rs:104-125 | with a cursor inside the buffer, `decode` never panics, because each frame it parses ends in CR LF |
| QueryProperties.DecodeSearchedAgrees | src/query.rs:105-108 | a cursor with no CR LF before it finds the same frame as a search from the start |
| QueryProperties.DecodeLosesSplitTerminator | src/query.rs:115-118 | after a search that ends on a CR, the recorded cursor lies past a CR LF once the LF arrives |
| QueryProperties.SplitTerminatorMissed | src/query.rs:115-118 | a query whose LF arrives in a later read than its CR is not decoded, though a search from the start finds it |
| QueryProperties.DecodeFixed | src/query.rs:104-125 | the corrected decoder gives the same buffer and result as `decode`, and its cursor stops at most one byte short of the end |
| QueryProperties.DecodeFixedKeepsSearched | src/query.rs:115-118 | with the correction, the cursor stays valid after more bytes arrive |
| QueryProperties.DecodeFixedIncremental | src/query.rs:104-125 | with the correction, a stream fed in two pieces yields the same first frame as the whole stream at once |
| Store.Open | src/file.rs:44-51 | a freshly opened store's snapshot is the whole file and its cursor is 9 |
| Store.RecordBytes | src/file.rs:143-149 | a record is 8 bytes plus its key and value; its prefixes read back as the key's and the value's lengths modulo 2^32, and the key and then the value follow them |
| Store.Put | src/file.rs:136-152 | a failed seek is an `Io` error and writes nothing; otherwise the file strictly grows by 8 bytes plus the key and the value, and the snapshot and the cursor stay put |
| Store.PutLayout | src/file.rs:143-149 | the earlier file is unchanged, the new prefixes read back as the lengths modulo 2^32, and the key and then the value follow them |
| Store.RecordAt | src/file.rs:143-149 | a record's bytes, wherever they lie in a view, read back field by field as the scan reads them |
| Store.Del | src/file.rs:154-156 | `del` changes nothing and succeeds |
| Store.ScanFrom | src/file.rs:114-117 | once `pos + 9 >= len`, the scan reports a miss |
| Store.ScanHit | src/file.rs:119-130 | a hit lies at or after the cursor; its prefixes read back as the key's and value's lengths, followed by the key and then the value returned |
| Store.Get | src/file.rs:110-134 | a miss is `KeyNotFound` with the cursor back at 9, and is certain once `pos + 9 >= len`. A hit leaves the cursor on the value of a record of the snapshot holding the key |
| Store.ServeStep | src/file.rs:64-106 | a reply is sent exactly for a `get` that finds its key, and carries its value. The worker ends exactly on a panicking `get`. `del`, a value-less `put` and a failed seek change nothing. Only a `put` grows the file. The snapshot never changes, and a ready store stays ready |
| StoreProperties.ScanUnfold | src/file.rs:119-132 | at a record that lies inside the view, the scan returns its value on a key match and otherwise goes on after it |
| StoreProperties.ScanRecordHit | src/file.rs:127-129 | a record for the key that starts more than 9 bytes before the end is where the scan stops, on its value |
| StoreProperties.ScanRecordSkip | src/file.rs:125-132 | a record for another key is skipped by exactly 8 plus its key and value lengths |
| StoreProperties.TruncatedValue | src/file.rs:125-132 | a record whose value runs past the end of the view panics the scan when it holds the key, and otherwise is skipped and the scan misses |
| StoreProperties.LaidLog | src/file.rs:143-149 | the bytes of a sequence of puts lie in the view record after record, as the scan reads them |
| StoreProperties.ExpectedIsEarliest | src/file.rs:127-129 | the record-by-record expectation of the scan is the first-match rule |
| StoreProperties.ScanLaid | src/file.rs:111-133 | over records laid out to the end of the view, the scan finds what the record-by-record expectation says, and never panics |
| StoreProperties.ScanLog | src/file.rs:110-134 | the scan of a log that fills the view returns the earliest record for the key, if that record starts more than 9 bytes before the end |
| StoreProperties.GetFindsEarliest | src/file.rs:127-129 | on the header plus a log, `get` returns the value of the earliest record for the key, and the cursor stops on that value |
| StoreProperties.GetMissesAbsentKey | src/file.rs:114-116 | a key no record holds is `KeyNotFound`, with the store otherwise as opened |
| StoreProperties.ShortLastRecordHidden | src/file.rs:114 | the earliest record for a key is out of the scan's reach exactly when it is the last record and its key and value hold at most one byte; `get` then misses |
| StoreProperties.GetNeverPanicsOnLog | src/file.rs:119-129 | `get` never panics on the header plus a log |
| StoreProperties.PutExtendsLog | src/file.rs:138-149 | after a put, the header plus a log is the header plus that log with the record appended |
| StoreProperties.LogExtend | src/file.rs:143-149 | a log with one more record is the old log followed by that record's bytes |
| StoreProperties.PutInvisibleToGet | src/file.rs:136-152 | a served `put` leaves the snapshot and the cursor as they were, so every later `get` replies as it would have before it |
| StoreProperties.ReadAfterPutMisses | src/file.rs:74-89 | on a file that is only the header, a `get` right after a `put` of the same key sends no reply |
| StoreProperties.ReopenSeesNewKey | src/file.rs:32-51 | after reopening, a new key's value is found unless key and value are at most one byte together |
| StoreProperties.NewKeyFound | src/file.rs:110-134 | `get` on a log whose last record is the only one for its key returns that value, unless it is at most one byte beyond its prefixes |
| StoreProperties.ScanNewKey | src/file.rs:114-132 | the scan behind `NewKeyFound` stops on the appended record's value, or runs out within 9 bytes of the end |
| StoreProperties.DelDoesNotHide | src/file.rs:154-156 | a key found before a `del` is still found, with the same value, after it |

## Left out

- `src/server.rs`: the TCP listener, the tokio framing and the crossbeam channels are left out. What they add is concurrency, not byte-level logic.
- `src/main.rs`: it only starts the process with a fixed address and file name.
- Opening the file and mapping it in `SunsetDb::new` are left out. `Store.Open` starts where both have succeeded; their failures are I/O.
- The `serve` loop's `recv`, `send` and `eprintln!` calls are left out. `Store.ServeStep` models the body for one received query. The reply is its `reply` field, and a failed `send` only logs.
- Store.Put: the `unwrap`ped `write_all` calls are assumed to succeed. A failing write would panic part-way through a record, and that is an I/O effect.
- Store.ScanFrom: cursor arithmetic is unbounded. In the source it is `usize` arithmetic, which cannot overflow for a view that fits in memory on a 64-bit target.
- `Display for Error` is left out, because its messages are cosmetic. `Store.Error` declares `InsertFailed` and `Other` as the source does, but nothing produces them.
- Queries.FromBuffer: `key.len() - 2` is modelled as a panic when the key is shorter than two bytes, which assumes a build with overflow checks. In a release build the subtraction wraps, `truncate` does nothing, and the key is kept whole. `QueryProperties.DecodeNoPanic` shows that `decode` never reaches this case.
- Queries.FromBufferPanics: states the panics of a build with overflow checks, as for `Queries.FromBuffer`.
- `Query::new` is the datatype's constructor.
- The `bytes` crate's buffers are plain sequences. The capacity that `reserve` requests is not modelled; `Queries.Encode` only bounds the output by it.

## Findings

| source | as written | input that shows it | evidently intended | confidence | as-written member | corrected member |
|---|---|---|---|---|---|---|
| src/query.rs:115-118 | when no CR LF is found, `decode` sets `pos` to `buf.len()`, so the next search starts after a CR that ends the buffer | `[get] a` followed by CR in one read, then LF in the next: the second call returns no frame | a CR LF split across two reads is found, and the query is decoded | not executed | QueryProperties.SplitTerminatorMissed | QueryProperties.DecodeFixed |

# ForeverDB core in Dafny

A Dafny model of the storage core behind the ForeverDB key-value store.

- **Value log** (`DataLog`). An append-only file of records `MAGIC LE ++ crc32(payload) LE ++ payload`. Records are read back through `(offset, length)` locators and checked for magic and CRC.
- **Store façade** (`Store`). It composes the log with an insert-only index from key to locator.
- **LinHash** (`LinHash`, `LinHashProofs`). The linear-hash index of foreverdb. A key goes to the bucket given by the low bits of its first eight bytes. Each bucket is a chain that starts at a main page and follows `overflow_id` links through the overflow page space. Insert walks the chain to its tail, refuses a duplicate, and then either appends in place or links a fresh overflow page. Get scans the chain in order.
- **ForeverHash** (`ForeverHash`). The second hash engine in the repository. Its pages keep a parallel array of 32-bit key digests, so a scan compares keys only where a digest matches.
- **Shared pieces**: page frames on a page file (`Device`), the addressing function and table state (`Addressing`), and the page-capacity calibration (`Calibration`).

Files are byte sequences. `read_at` zero-fills past the end of the file, and `write_at` grows the file. A page space is a map from page id to decoded page. Three functions the core calls but does not define are parameters of the operations that use them:

- the page serializer (rkyv), as a `Codec` of `encode`/`decode`;
- CRC-32 (crc32fast), as a `Checksum`;
- the xxh32 digest, as a `Digest`.

The facts the proofs need about these collaborators are predicates that lemmas take as preconditions:

- `RoundTrips`: decoding an encoded page gives the page back;
- `RejectsEmpty`: the empty payload does not decode;
- `EmptyCrcIsZero`: CRC-32 of the empty input is 0.

Most places where the Rust code panics (an `unwrap`, an `assert!`, an out-of-range slice) return a distinct `Error` variant in the model, so the panicking path shows up in the contracts. The exceptions are listed under "Left out":

- a key shorter than 8 bytes (Addressing.Hash) is a precondition;
- a digest that matches past the end of the pair list (ForeverHash.Exists, ForeverHash.GetValue) is a precondition;
- a main page that fails to decode during an insert is excluded by the chain invariant (LinHash.Admit);
- the `assert!` in `write_page` on a page larger than 4088 bytes is not modelled for inserts (LinHash.Place).

## Model

| member | source | states |
|---|---|---|
| Addressing.Hash | foreverdb/src/linhash/mod.rs:122-126 | the hash is the u64 whose 8-byte little-endian encoding is the first eight key bytes; keys shorter than 8 bytes are outside the contract |
| Addressing.Initial | foreverdb/src/linhash/mod.rs:109-119 | the initial state has level 1, split pointer 0, no overflow page, no item and no calibrated capacity, and it addresses exactly two main pages |
| Addressing.LowBitsNext | foreverdb/src/linhash/mod.rs:131-133 | widening the mask by one bit either keeps the bucket or adds 2^level |
| Addressing.MainPageId | foreverdb/src/linhash/mod.rs:128-137 | with low bits b: when b >= split the address is b; when b < split it uses level+1 bits and is b or b + 2^level; an address of 2^level or more comes only from a split bucket; when split <= 2^level the address is below the main-page count |
| Addressing.BucketOf | foreverhash/src/lib.rs:150-159 | under an addressable state, a key's bucket is a main page in use, and it is its low-bits bucket or that bucket plus 2^level |
| Addressing.MainPageCount | foreverdb/src/linhash/mod.rs:140 | the number of main pages in use, 2^level + split, is at least 2^level, and below 2^(level+1) whenever the split pointer is within the level |
| Addressing.Capacity | foreverhash/src/lib.rs:162-163 | the capacity is a whole number of pages: divided by max_kv_per_page it gives the main-page count; it is 0 when a page holds no pair |
| Addressing.SplitDue | foreverhash/src/lib.rs:161-165 | the trigger `n_items / capacity > 0.8`, over exact rationals, fires exactly when 5 * n_items > 4 * capacity; for a zero capacity (+inf or NaN in f64) it fires exactly when the table holds an item |
| Addressing.SplitDueAsWritten | foreverdb/src/linhash/mod.rs:139-142 | the trigger `n_items / n_main_pages * max > 0.8`, divided first as Rust evaluates it, fires exactly when 5 * n_items * max > 4 * n_main_pages |
| Addressing.SplitDueMeansEightyPercent | foreverhash/src/lib.rs:161-165 | the growth trigger fires exactly when the items exceed 80% of (2^level + split) * max_kv_per_page, and never while there is at most one item per main page |
| Addressing.SplitDueAsWrittenAfterFirstInsert | foreverdb/src/linhash/mod.rs:139-142 | the linhash trigger as parenthesised fires after the first insert into a new table for every capacity of at least 2, while the intended trigger does not |
| Calibration.MaxPerPageFrom | foreverdb/src/linhash/mod.rs:37-51 | the search from count i, given that the smaller counts fit, returns the boundary; it fails exactly when some count from i up to 2 does not fit |
| Calibration.MaxPerPage | foreverdb/src/linhash/mod.rs:36-54 | the calibrated r lies in 2..255; every count up to r encodes within 4088 bytes; count r+1 does not unless r is 255; the `assert!(i > 2)` panic happens exactly when a count up to 2 does not fit |
| Calibration.MaxPerPageUnique | foreverhash/src/lib.rs:46-65 | any count with the boundary properties is the one calibration returns |
| Device.Frame | foreverhash/src/device.rs:12-21 | a frame is the CRC of the payload, then its length, then the payload, and it fits in 4096 bytes |
| Device.WritePage | foreverhash/src/device.rs:8-26 | a write succeeds exactly when the encoded page is at most 4088 bytes; it puts the frame at offset id*4096 and leaves every other frame's bytes unchanged |
| Device.ReadPage | foreverhash/src/device.rs:28-40 | a successful read passed the length and CRC checks and returns the payload's decoding; a declared length past the frame and a CRC mismatch are each reported exactly when they occur |
| Device.ReadAfterWrite | foreverhash/src/device.rs:8-40 | reading a frame back after writing a page to it returns that page, when the codec round-trips it |
| Device.FrameFields | foreverhash/src/device.rs:30-38 | a buffer that starts with the frame of a payload declares that payload's length and CRC, passes the length check, and its payload is that payload |
| Device.WriteIsolatesFrames | foreverhash/src/device.rs:23 | writing one frame never changes what another frame reads as |
| Device.ZeroFrameReadsNone | foreverhash/src/device.rs:31-39 | an all-zero frame reads as "no page" |
| Device.FramePastEndReadsNone | foreverdb/src/linhash/mod.rs:78-97 | a frame at or past the end of the file reads as "no page", which is how `new` detects an uninitialised page space |
| DataLog.Open | foreverdb/src/data_log.rs:15-27 | the cursor starts at the current length of the file |
| DataLog.Record | foreverdb/src/data_log.rs:33-41 | a record is the magic, then the payload's CRC, then the payload, 8 + the payload's length bytes in all |
| DataLog.Append | foreverdb/src/data_log.rs:30-48 | the record is written at the old cursor and the earlier bytes are untouched; for a payload shorter than 2^32 - 8 bytes the locator covers the record and the cursor advances by its length |
| DataLog.Read | foreverdb/src/data_log.rs:50-69 | a wrong magic gives LogMagicMismatch and is checked before the CRC; a CRC mismatch gives LogCrcMismatch; a success returns exactly the bytes after the header and their CRC matches the stored one |
| DataLog.ReadAfterAppend | foreverdb/src/data_log.rs:76-88 | reading the locator an append returned yields exactly the appended payload |
| DataLog.AppendKeepsEarlierReads | foreverdb/src/data_log.rs:43-45 | a later append never changes what an earlier locator reads back |
| Store.Insert | foreverdb/src/lib.rs:21-33 | the log append always happens; the insert fails with KeyAlreadyExists exactly when the index holds the key, and then the index is unchanged; otherwise the key maps to the append's locator |
| Store.Get | foreverdb/src/lib.rs:35-41 | no index entry gives Ok(None); an index hit gives the log read's payload or its error |
| Store.OpenHoldsNothing | foreverdb/src/lib.rs:17-19 | a store on any log file with an empty index holds no key |
| Store.GetAndExistsAgree | foreverdb/src/lib.rs:35-45 | in a store that holds some contents, get returns each key's value or None, and exists is true exactly for the keys it holds |
| Store.InsertUpdatesContents | foreverdb/src/lib.rs:21-33 | insert adds an absent key with its value and leaves the contents unchanged for a present key, succeeding exactly in the first case |
| Store.InsertKeepsEntry | foreverdb/src/lib.rs:21-33 | after an insert, the new key's index entry reads back the new value and every earlier entry still reads back its old value |
| Store.TwoInsertsReadBack | foreverdb/src/lib.rs:58-80 | after two distinct keys are inserted into a fresh store, both exist and each reads back its own value |
| LinHash.CalcMaxKvPerPage | foreverdb/src/linhash/mod.rs:36-54 | over the synthetic hash-map pages with link Some(1), every count up to the result fits in 4088 bytes, the next does not unless the result is 255, and the result is 2..255; it fails exactly when a count up to 2 does not fit |
| LinHash.Calibrate | foreverdb/src/linhash/op/insert.rs:9-12 | a set capacity is kept as is; an unset one is computed from the first key and value sizes; nothing else in the state changes |
| LinHash.NextIsPresent | foreverdb/src/linhash/op/insert.rs:19-28 | in a valid table every link leads to a page in use, and the measure decreases along the link, so chain walks terminate |
| LinHash.Chain | foreverdb/src/linhash/op/insert.rs:19-28 | the chain starts at the given page, visits pages in use, continues into overflow pages only, follows each page's link, and ends at the first page without a link |
| LinHash.Tail | foreverdb/src/linhash/op/insert.rs:14-28 | the tail walk ends at a page in use that has no link; a main tail is the starting page itself |
| LinHash.TailIsLast | foreverdb/src/linhash/op/insert.rs:14-28 | the tail is the last page of the chain |
| LinHash.ChainPages | foreverdb/src/linhash/op/get.rs:11-24 | the pages the lookup visits are those of the chain, in chain order |
| LinHash.FirstHitPrepend | foreverdb/src/linhash/op/get.rs:13-15 | prepending a page that lacks the key keeps the first page that holds it |
| LinHash.LookupFrom | foreverdb/src/linhash/op/get.rs:12-24 | the scan finds a value exactly when some page of the chain holds the key |
| LinHash.LookupIsFirstHit | foreverdb/src/linhash/op/get.rs:12-24 | the scan returns the value on the first page in chain order that holds the key, and None exactly when no page of the chain holds it |
| LinHash.Get | foreverdb/src/linhash/op/get.rs:8-26 | lookup starts at the key's bucket and finds a value exactly when the bucket's chain holds the key |
| LinHash.New | foreverdb/src/linhash/mod.rs:69-120 | the state is the initial one; an existing main page 0 leaves the main space as it is; a missing one gets empty main pages 0 and 1, which gives a valid table |
| LinHash.Place | foreverdb/src/linhash/op/insert.rs:34-70 | with room on the tail, the pair is added to the tail, only that page changes and no overflow page is allocated; without room, a new overflow page at the old `next_overflow_id` holds just the pair, the counter grows by one and the old tail links to it with its entries unchanged; n_items grows by one, and the level, split pointer and capacity stay as they were |
| LinHash.PlaceKeepsValid | foreverdb/src/linhash/op/insert.rs:41-67 | placing a pair keeps the chain invariant: pages in use exist, links point forward below `next_overflow_id`, overflow pages are non-empty |
| LinHash.Admit | foreverdb/src/linhash/op/insert.rs:8-73 | a failed calibration changes nothing; after calibration the key is refused exactly when it counts as a duplicate, and a refusal changes no page or counter; a success adds one item; the table stays valid |
| LinHash.Settle | foreverdb/src/linhash/op/insert.rs:30-70 | at the tail, a duplicate is refused with KeyAlreadyExists and changes nothing; otherwise the pair is placed, n_items grows by one, and the level, split pointer and capacity stay as they were |
| LinHash.InsertAsWritten | foreverdb/src/linhash/op/insert.rs:30-32 | the insert as written refuses a key exactly when the tail page of its bucket holds it |
| LinHash.Insert | foreverdb/src/linhash/op/insert.rs:8-73 | the corrected insert refuses a key exactly when lookup finds it, and keeps the chain invariant |
| LinHash.InsertAgreesWhenAbsent | foreverdb/src/linhash/op/insert.rs:30-32 | for a key absent from its bucket, the insert as written and the corrected insert produce the same table and outcome |
| LinHash.TailKeysInChain | foreverdb/src/linhash/op/insert.rs:14-32 | every key on the tail page is a key of the chain |
| LinHashProofs.Recalibrated | foreverdb/src/linhash/op/insert.rs:10-12 | setting the capacity changes only the capacity |
| LinHashProofs.CapacityIrrelevant | foreverdb/src/linhash/op/insert.rs:10-28 | setting the capacity changes no chain, tail, key set or lookup result |
| LinHashProofs.PlaceKeepsTailLookup | foreverdb/src/linhash/op/insert.rs:34-67 | lookups of other keys from the tail page are unchanged by placing a pair there |
| LinHashProofs.PlaceKeepsLookup | foreverdb/src/linhash/op/insert.rs:34-67 | a lookup of another key, or of any key on a chain that does not reach the tail, or of a key already found before the tail, is unchanged by the insert |
| LinHashProofs.PlaceFindsKey | foreverdb/src/linhash/op/get.rs:8-26 | after a key absent from its chain is placed at the chain's tail, the lookup returns the inserted value |
| LinHashProofs.ChainMemberKeys | foreverdb/src/linhash/op/get.rs:12-24 | the keys of any page on a chain are keys of the chain |
| LinHashProofs.TailOnOwnChainOnly | foreverdb/src/linhash/op/insert.rs:14-28 | under the bucket invariant, a bucket's tail lies on no other bucket's chain |
| LinHashProofs.BucketOfChainKey | foreverdb/src/linhash/op/get.rs:9-10 | under the bucket invariant, every key on bucket b's chain is addressed to b |
| LinHashProofs.MainOnlyAtHead | foreverdb/src/linhash/op/insert.rs:19-28 | a main page appears on a chain only as its first page |
| LinHashProofs.SharedPageSharesKey | foreverdb/src/linhash/op/insert.rs:41-67 | two chains that share an overflow page share a key, because overflow pages are never empty |
| LinHashProofs.NewBucketsOk | foreverdb/src/linhash/mod.rs:69-120 | the table `new` makes on an uninitialised main space satisfies the chain and bucket invariants |
| LinHashProofs.RecalibratedBucketsOk | foreverdb/src/linhash/op/insert.rs:9-12 | calibration keeps the bucket invariant |
| LinHashProofs.PlaceKeepsBuckets | foreverdb/src/linhash/op/insert.rs:14-67 | placing a pair at the tail of its own bucket's chain keeps every bucket's chain holding only keys addressed to that bucket |
| LinHashProofs.PlacedBucketOk | foreverdb/src/linhash/op/insert.rs:14-67 | after the pair is placed, each single bucket still holds only keys addressed to it |
| LinHashProofs.AdmitKeepsBuckets | foreverdb/src/linhash/op/insert.rs:8-73 | insert, as written or corrected, keeps the bucket invariant |
| LinHashProofs.InsertThenGet | foreverdb/src/linhash/op/get.rs:8-26 | inserting a key absent from its bucket succeeds, adds one item, makes get return the value, and leaves get of every other key unchanged |
| LinHashProofs.InsertRefusesDuplicate | foreverdb/src/linhash/op/insert.rs:30-32 | inserting a key get already finds fails with KeyAlreadyExists and leaves n_items and every lookup unchanged |
| LinHashProofs.InsertAll | foreverdb/src/linhash/mod.rs:180-182 | a sequence of corrected inserts, stopping at the first failure, keeps the chain invariant |
| LinHashProofs.InsertAllAsWritten | foreverdb/src/linhash/mod.rs:180-182 | a sequence of inserts as written, stopping at the first failure, keeps the chain invariant |
| LinHashProofs.AsWrittenRunAgrees | foreverdb/src/linhash/op/insert.rs:30-32 | for distinct keys all absent from the table, the run of inserts as written ends in exactly the table and outcome of the run of corrected inserts |
| LinHashProofs.RestOfAbsent | foreverdb/src/linhash/mod.rs:180-182 | the first key of a run of absent keys is absent, and so are the rest |
| LinHashProofs.RestStillAbsent | foreverdb/src/linhash/mod.rs:180-182 | after the first insert of a run of distinct absent keys succeeds, the remaining keys are distinct and still absent |
| LinHashProofs.InsertOne | foreverdb/src/linhash/op/insert.rs:8-73 | one successful insert of an absent key: the outcome, the count, the new value, and all other lookups unchanged |
| LinHashProofs.RestOfDistinct | foreverdb/src/linhash/mod.rs:177-182 | the remaining keys of a distinct sequence are distinct and lack the first key |
| LinHashProofs.StillAbsent | foreverdb/src/linhash/mod.rs:180-182 | keys other than the inserted one stay absent |
| LinHashProofs.DistinctInsertsReadBack | foreverdb/src/linhash/mod.rs:171-190 | with the corrected insert, inserting keys that are distinct and absent all succeeds, n_items grows by their number, each reads back its own value, and other keys read as before |
| LinHashProofs.DistinctAsWrittenReadBack | foreverdb/src/linhash/mod.rs:171-190 | with the insert as written, inserting keys that are distinct and absent all succeeds, n_items grows by their number, each reads back its own value, and other keys read as before |
| LinHashProofs.ExtendResults | foreverdb/src/linhash/mod.rs:180-189 | one insert followed by the rest reads back all keys |
| LinHashProofs.ExtendPresent | foreverdb/src/linhash/mod.rs:184-189 | a table that holds the rest of the pairs and also the first pair holds every pair |
| LinHashProofs.ReopenedNotValid | foreverdb/src/linhash/mod.rs:78-119 | reopening a main space whose page 0 links to an overflow page yields `next_overflow_id` 0 and a table that breaks the chain invariant |
| LinHashProofs.NewHoldsNothing | foreverdb/src/linhash/mod.rs:69-120 | a new table on an uninitialised main space holds no key |
| LinHashProofs.CountingPairs | foreverdb/src/linhash/mod.rs:167-169 | the test's n pairs: key and value of pair i are i as 8 little-endian bytes, so every key is long enough to hash |
| LinHashProofs.CountingPairsDistinct | foreverdb/src/linhash/mod.rs:177-181 | the test's keys 0..n are distinct for n up to 2^64 |
| LinHashProofs.NewAllAbsent | foreverdb/src/linhash/mod.rs:173-175 | no key is present in a new table |
| LinHashProofs.FreshRun | foreverdb/src/linhash/mod.rs:171-182 | a run of inserts as written into a new table on an uninitialised main space keeps the chain invariant |
| LinHashProofs.FreshInsertsReadBack | foreverdb/src/linhash/mod.rs:171-190 | distinct keys inserted as written into a fresh table all succeed, the table counts exactly them, and each reads back its own value |
| LinHashProofs.CountingKeysReadBack | foreverdb/src/linhash/mod.rs:171-190 | the unit test with the split held off: after inserting keys 0..n as written into a new table, every insert succeeded, len() is n and every key reads back its own value |
| LinHashProofs.AsWrittenStoresDuplicate | foreverdb/src/linhash/op/insert.rs:30-40 | as written, a key that sits on its chain but not on the tail is stored again: the insert succeeds, n_items grows, and get still returns the old value |
| LinHashProofs.EvenKeyInBucketZero | foreverdb/src/linhash/mod.rs:128-137 | before any split at level 1, a key whose first byte is even goes to bucket 0 |
| LinHashProofs.DuplicateExample | foreverdb/src/linhash/op/insert.rs:41-67 | the example table (bucket 0 full on its main page and continued on overflow page 0) satisfies the chain invariant |
| LinHashProofs.DuplicateExampleChains | foreverdb/src/linhash/op/get.rs:12-24 | bucket 0's chain holds the three example keys and bucket 1's holds none |
| LinHashProofs.DuplicateExampleBucketsOk | foreverdb/src/linhash/op/get.rs:9-10 | the example satisfies the bucket invariant |
| LinHashProofs.DuplicateExampleShowsIt | foreverdb/src/linhash/op/insert.rs:30-32 | on the example, re-inserting a key held on the main page succeeds as written while get still returns the old value; the corrected insert refuses it |
| ForeverHash.Push | foreverhash/src/lib.rs:27-30 | push appends the key's digest and the pair, keeps every earlier digest and pair and the link, and preserves the digest invariant |
| ForeverHash.KeyIndex | foreverhash/src/page.rs:32-46 | the reference search: the lowest index whose key is k |
| ForeverHash.DigestFilterExact | foreverhash/src/lib.rs:32-43 | under the digest invariant, a position passes the digest filter and holds the key exactly when it holds the key |
| ForeverHash.Exists | foreverhash/src/lib.rs:32-43 | exists is true exactly when a position passes the digest filter and holds the key; under the digest invariant, exactly when some pair has the key |
| ForeverHash.GetValue | foreverhash/src/page.rs:32-46 | get_value returns a value exactly when a position passes the filter and holds the key; the pair returned has the key, never a mere digest match; under the digest invariant it returns None exactly when no pair has the key, and otherwise the value at the lowest index with that key |
| ForeverHash.LookupAgreesWithExists | foreverhash/src/page.rs:32-46 | the zero-copy lookup finds a value exactly when `exists` is true, on every page, and the value it finds belongs to a pair whose digest matches and whose key is the key looked up |
| ForeverHash.OverflowIdOf | foreverhash/src/page.rs:48-50 | the link read from the encoding of a page the codec round-trips is that page's own link |
| ForeverHash.OverflowIdRoundTrip | foreverhash/src/page.rs:48-50 | the link read from a written page's payload is the page's own link |
| ForeverHash.SyntheticPageContents | foreverhash/src/lib.rs:47-55 | the synthetic page with i entries is built by push from a page with link Some(1), holds entries 0..i-1 in order, and satisfies the digest invariant |
| ForeverHash.CalcMaxKvPerPage | foreverhash/src/lib.rs:46-65 | over the synthetic push-built pages, every count up to the result fits in 4088 bytes, the next does not unless the result is 255, and the result is 2..255; it fails exactly when a count up to 2 does not fit |
| ForeverHash.New | foreverhash/src/lib.rs:85-136 | the state is the initial one; a missing main page 0 gives empty main pages 0 and 1, which cover every main page in use |

## Left out

- Split (`op::Split`) is not part of this model. The level and split pointer stay fixed, so the unit test is modelled with the split held off.
- The load factor is floating point. Only its integer capacity `(2^level + split) * max_kv_per_page` and exact rational comparisons are modelled.
- ForeverHash's `op` insert, query and split are not part of this model. For that engine the page operations, calibration, addressing and `new` are modelled.
- The `versatile` feature's xxh3 hash is left out. Only the default hash (the first eight key bytes, little-endian) is modelled.
- rkyv encoding, decoding and encoded sizes are an abstract codec. The zero-copy `access_unchecked` view is modelled as the decoded page.
- The internals of CRC-32 and xxh32 are left out. They are function parameters.
- File opening, `metadata`, `sync`/`sync_all` and I/O errors are left out: files are byte sequences. `read_at` is modelled as filling the whole buffer, zeros past the end of the file; a short read is not modelled.
- The ForeverDB index (`db_index.rs`, gdbm) is abstracted as a map from key to locator that follows the contract `lib.rs` is written against: an insert reports a key it already holds, and `get` of a missing key gives `Ok(None)` (lib.rs:36-38). `db_index.rs` itself does neither: `insert` calls `store(k, &v, false).unwrap()` and returns `Ok(())`, and `get` panics on a missing key through `fetch_data(k).unwrap()` (db_index.rs:21-31).
- Store.Insert: reports KeyAlreadyExists for a key the index holds, where `db_index.rs` as written returns `Ok(())` after its no-replace store.
- Store.Get: gives `Ok(None)` for a missing key, where `db_index.rs` as written panics.
- foreverdb's `linhash/device.rs` (declared at mod.rs:10-11) is not part of this model. foreverhash's `device.rs` (`Device`) stands in for it, on the assumption that it writes and checks the same frame layout; the LinHash rows that cite device behaviour rest on that assumption.
- The benchmark, the error enum declarations and `op/mod.rs` are left out: there is no logic in them to model.
- Store.Exists: has no contract of its own; what it answers is stated by Store.GetAndExistsAgree.
- Addressing.Hash: a key shorter than 8 bytes is a precondition, as the source comment states, rather than the panic the `unwrap` would raise.
- LinHash.Get: requires the chain invariant. On a table with a cyclic chain the Rust loop would not terminate. The invariant holds for the table `new` builds on an uninitialised main space (LinHash.New) and is preserved by insert (LinHash.PlaceKeepsValid, LinHash.Admit). It does not hold after reopening a main space that already has overflow chains: `new` resets `next_overflow_id`, `n_items`, the level and the split pointer (mod.rs:109-119) whatever the files hold, so the next overflow allocation overwrites overflow page 0 (LinHashProofs.ReopenedNotValid). Get and insert on a reopened index are not modelled.
- LinHash.Admit: a main page that fails to decode (`read_page(b)?.unwrap()` panicking) is excluded by the chain invariant rather than modelled as an error.
- DataLog.Append: the u64 cursor and `id * 4096` are unbounded here. The u32 cast of the payload length is modelled as truncation, and contracts about the locator hold only for payloads shorter than 2^32 - 8 bytes.
- LinHash.Place: `next_overflow_id` and `n_items` are unbounded, so u64 wrap-around is not modelled.
- LinHash.Place: the pages live in a map of decoded pages, and the `assert!(data.len() <= 4088)` of `write_page` (device.rs:10) is not checked on insert. Calibration only promises that `max_kv_per_page` pairs of the first insert's key and value sizes fit. A later, larger pair can make a page's encoding exceed 4088 bytes, and the Rust code then panics where LinHash.Place, LinHash.Settle and LinHash.Admit succeed.
- ForeverHash.Exists: requires at least as many pairs as digests. With more digests, a digest match past the end of the pair list panics on `kv_pairs[i]` (lib.rs:36); the digest invariant that push keeps rules this out.
- ForeverHash.GetValue: requires at least as many pairs as digests, for the same reason (page.rs:38).
- The `sync` after allocating an overflow page, and the order in which the new page and the old tail are written, are left out. Crash consistency is not modelled.
- Calibration.MaxPerPage: the synthetic pages' encoded sizes are an abstract function, so no concrete capacity is computed.

## Findings

| source | as written | input that shows it | evidently intended | confidence | as-written member | corrected member |
|---|---|---|---|---|---|---|
| foreverdb/src/linhash/op/insert.rs:30-32 | the duplicate check looks only at the tail page of the bucket's chain | capacity 2 at level 1; main page 0 holds keys a and b, linked to overflow page 0 holding key c (all three with an even first byte); insert a again | a key anywhere on the chain is refused with KeyAlreadyExists | not executed | LinHash.InsertAsWritten (LinHashProofs.AsWrittenStoresDuplicate, LinHashProofs.DuplicateExampleShowsIt) | LinHash.Insert (LinHashProofs.InsertRefusesDuplicate) |
| foreverdb/src/linhash/mod.rs:139-142 | the load factor is `n_items / n_main_pages * max_kv_per_page` | a new table (two main pages) after its first insert with capacity m >= 2 | `n_items / (n_main_pages * max_kv_per_page)`, as in foreverhash/src/lib.rs:161-165 | not executed | Addressing.SplitDueAsWritten (Addressing.SplitDueAsWrittenAfterFirstInsert) | Addressing.SplitDue (Addressing.SplitDueMeansEightyPercent) |

In the first row, a key is meant to be stored at most once: insert reports KeyAlreadyExists (insert.rs:31) rather than updating. As written, a second copy of the key is stored on the tail. Lookups keep returning the first copy, so `n_items` counts a pair that can never be read.

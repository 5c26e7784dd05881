/** The store façade (`ForeverDB`): a value log plus an index from key to
    locator. The index is abstract here — a map that refuses a key it already
    holds — so the façade's own logic (log first, then index; index-only
    existence checks) is what is modelled. */
module Store {
  import opened Bytes
  import opened Errors
  import opened Codec
  import opened DataLog

  datatype Db = Db(log: Log, index: map<Bytes, Locator>)

  datatype DbStep = DbStep(db: Db, outcome: Outcome)

  /** `ForeverDB::insert`: append the value to the log, then insert the
      locator into the index. A failing index insert leaves the appended
      record in the log (orphaned) and reports the error. */
  function Insert(crc: Checksum, db: Db, key: Bytes, data: Bytes): (s: DbStep)
    ensures s.db.log == Append(crc, db.log, data).log
    ensures s.outcome == Failed(KeyAlreadyExists) <==> key in db.index
    ensures s.outcome.Failed? ==> s.db.index == db.index
    ensures s.outcome == Done ==> s.db.index == db.index[key := Append(crc, db.log, data).loc]
  {
    var a := Append(crc, db.log, data);
    if key in db.index then DbStep(Db(a.log, db.index), Failed(KeyAlreadyExists))
    else DbStep(Db(a.log, db.index[key := a.loc]), Done)
  }

  /** `ForeverDB::get`: no index entry means no value, without touching the
      log; otherwise the log read's payload or its error. */
  function Get(crc: Checksum, db: Db, key: Bytes): (r: Result<Option<Bytes>>)
    ensures key !in db.index ==> r == Ok(None)
    ensures key in db.index ==>
      (r.Ok? <==> Read(crc, db.log, db.index[key]).Ok?)
      && (r.Ok? ==> r.value == Some(Read(crc, db.log, db.index[key]).value))
      && (r.Err? ==> r.error == Read(crc, db.log, db.index[key]).error)
  {
    if key !in db.index then Ok(None)
    else match Read(crc, db.log, db.index[key])
      case Ok(v) => Ok(Some(v))
      case Err(e) => Err(e)
  }

  /** `ForeverDB::exists`: an index lookup only; the log is not an input. */
  function Exists(db: Db, key: Bytes): bool
  {
    key in db.index
  }

  /** The store holds exactly `contents`: the cursor is at the end of the log,
      the index has one entry per key, and each entry's record lies before the
      cursor and reads back as that key's value. */
  ghost predicate Holds(crc: Checksum, db: Db, contents: map<Bytes, Bytes>)
  {
    && Tidy(db.log)
    && db.index.Keys == contents.Keys
    && forall k :: k in db.index ==>
         && db.index[k].offset + db.index[k].len <= db.log.cursor
         && Read(crc, db.log, db.index[k]) == Ok(contents[k])
  }

  /** A store opened on any log file with an empty index holds nothing. */
  lemma OpenHoldsNothing(crc: Checksum, file: Bytes)
    ensures Holds(crc, Db(Open(file), map[]), map[])
  {
  }

  /** Get and Exists answer from the contents the store holds. */
  lemma GetAndExistsAgree(crc: Checksum, db: Db, contents: map<Bytes, Bytes>, key: Bytes)
    requires Holds(crc, db, contents)
    ensures Get(crc, db, key) == Ok(if key in contents then Some(contents[key]) else None)
    ensures Exists(db, key) <==> key in contents
    ensures Exists(db, key) <==> (Get(crc, db, key).Ok? && Get(crc, db, key).value.Some?)
  {
  }

  /** Insert adds a new key with its value, and leaves a store that already
      holds the key unchanged in content (the value-log append is kept but
      unreachable). */
  lemma InsertUpdatesContents(crc: Checksum, db: Db, contents: map<Bytes, Bytes>, key: Bytes, data: Bytes)
    requires Holds(crc, db, contents)
    requires |data| + HEADER_LEN < TWO_32
    ensures var s := Insert(crc, db, key, data);
      && (s.outcome == Done <==> key !in contents)
      && Holds(crc, s.db, if key in contents then contents else contents[key := data])
  {
    var s := Insert(crc, db, key, data);
    var contents' := if key in contents then contents else contents[key := data];
    assert s.db.index.Keys == contents'.Keys;
    forall k | k in s.db.index
      ensures s.db.index[k].offset + s.db.index[k].len <= s.db.log.cursor
      ensures Read(crc, s.db.log, s.db.index[k]) == Ok(contents'[k])
    {
      InsertKeepsEntry(crc, db, contents, key, data, k);
    }
  }

  /** One index entry after an insert: the new key's entry reads back the new
      value; every earlier entry still reads back its old value. */
  lemma InsertKeepsEntry(crc: Checksum, db: Db, contents: map<Bytes, Bytes>, key: Bytes, data: Bytes, k: Bytes)
    requires Holds(crc, db, contents)
    requires |data| + HEADER_LEN < TWO_32
    requires k in Insert(crc, db, key, data).db.index
    ensures var s := Insert(crc, db, key, data);
      var contents' := if key in contents then contents else contents[key := data];
      && k in contents'
      && s.db.index[k].offset + s.db.index[k].len <= s.db.log.cursor
      && Read(crc, s.db.log, s.db.index[k]) == Ok(contents'[k])
  {
    if k == key && key !in contents {
      ReadAfterAppend(crc, db.log, data);
    } else {
      AppendKeepsEarlierReads(crc, db.log, data, db.index[k]);
    }
  }

  /** The façade test: after inserting two distinct keys into a fresh store,
      both exist and each reads back its own value. */
  lemma TwoInsertsReadBack(crc: Checksum, file: Bytes, k1: Bytes, v1: Bytes, k2: Bytes, v2: Bytes)
    requires k1 != k2
    requires |v1| + HEADER_LEN < TWO_32 && |v2| + HEADER_LEN < TWO_32
    ensures var s1 := Insert(crc, Db(Open(file), map[]), k1, v1);
      var s2 := Insert(crc, s1.db, k2, v2);
      && s1.outcome == Done && s2.outcome == Done
      && Exists(s2.db, k1) && Exists(s2.db, k2)
      && Get(crc, s2.db, k1) == Ok(Some(v1)) && Get(crc, s2.db, k2) == Ok(Some(v2))
  {
    var db0 := Db(Open(file), map[]);
    OpenHoldsNothing(crc, file);
    InsertUpdatesContents(crc, db0, map[], k1, v1);
    var s1 := Insert(crc, db0, k1, v1);
    InsertUpdatesContents(crc, s1.db, map[k1 := v1], k2, v2);
    var s2 := Insert(crc, s1.db, k2, v2);
    var c2 := map[k1 := v1][k2 := v2];
    GetAndExistsAgree(crc, s2.db, c2, k1);
    GetAndExistsAgree(crc, s2.db, c2, k2);
  }
}

/** The append-only value log (`DataLog`): a file of records
    `MAGIC LE ++ crc32(payload) LE ++ payload` written at a growing cursor and
    read back through `(offset, length)` locators. */
module DataLog {
  import opened Bytes
  import opened Errors
  import opened Codec

  /** "4eVR" */
  const MAGIC: U32 := 0x34655652
  const HEADER_LEN: nat := 8

  /** Where a record lives: its offset and its total length, header included. */
  datatype Locator = Locator(offset: nat, len: U32)

  datatype Log = Log(file: Bytes, cursor: nat)

  datatype Appended = Appended(log: Log, loc: Locator)

  /** `open`: the cursor starts at the current end of the file. */
  function Open(file: Bytes): (log: Log)
    ensures log.file == file && log.cursor == |file|
    ensures Tidy(log)
  {
    Log(file, |file|)
  }

  /** The cursor sits at the end of the file, as after `open` and after every
      append of a payload shorter than 2^32 - 8 bytes. */
  predicate Tidy(log: Log)
  {
    log.cursor == |log.file|
  }

  /** The bytes of one record. */
  function Record(crc: Checksum, data: Bytes): (rec: Bytes)
    ensures |rec| == HEADER_LEN + |data|
    ensures rec[0..4] == Le32(MAGIC) && rec[4..8] == Le32(crc(data)) && rec[8..] == data
  {
    var rec := Le32(MAGIC) + Le32(crc(data)) + data;
    assert rec[0..4] == Le32(MAGIC) && rec[4..8] == Le32(crc(data));
    rec
  }

  /** The `as u32` cast: keep the low 32 bits. */
  function Truncate32(n: nat): (r: U32)
    ensures n < TWO_32 ==> r == n
  {
    n % TWO_32
  }

  /** `append`: write the record at the cursor and advance it. The payload
      length is cast to u32 (`data.len() as u32`), so only a payload shorter
      than 2^32 - 8 bytes gets a locator that covers it. */
  function Append(crc: Checksum, log: Log, data: Bytes): (r: Appended)
    ensures r.loc.offset == log.cursor
    ensures ReadAt(r.log.file, log.cursor, |Record(crc, data)|) == Record(crc, data)
    ensures forall p: nat :: p < log.cursor ==> ByteAt(r.log.file, p) == ByteAt(log.file, p)
    ensures |data| + HEADER_LEN < TWO_32 ==>
      r.loc.len == HEADER_LEN + |data| && r.log.cursor == log.cursor + HEADER_LEN + |data|
    ensures |data| + HEADER_LEN < TWO_32 && Tidy(log) ==> Tidy(r.log)
  {
    var dataLen := Truncate32(|data|);
    var rec := Record(crc, data);
    ReadAtOwnWrite(log.file, log.cursor, rec);
    var file' := WriteAt(log.file, log.cursor, rec);
    Appended(Log(file', log.cursor + HEADER_LEN + dataLen),
             Locator(log.cursor, Truncate32(HEADER_LEN + dataLen)))
  }

  /** `read`: read `len` bytes at `offset`; check the magic, then the CRC;
      strip the header. A locator shorter than the header panics in the Rust
      code (slice out of range). */
  function Read(crc: Checksum, log: Log, loc: Locator): (r: Result<Bytes>)
    ensures var buf := ReadAt(log.file, loc.offset, loc.len);
      && (r == Err(LogMagicMismatch) <==> loc.len >= 4 && Le32Value(buf[0..4]) != MAGIC)
      && (r == Err(LogCrcMismatch) <==>
            loc.len >= HEADER_LEN && Le32Value(buf[0..4]) == MAGIC
            && crc(buf[8..]) != Le32Value(buf[4..8]))
      && (r.Ok? ==>
            && loc.len >= HEADER_LEN && Le32Value(buf[0..4]) == MAGIC
            && r.value == buf[8..] && crc(r.value) == Le32Value(buf[4..8]))
  {
    var buf := ReadAt(log.file, loc.offset, loc.len);
    if loc.len < 4 then Err(LogRecordTooShort)
    else if Le32Value(buf[0..4]) != MAGIC then Err(LogMagicMismatch)
    else if loc.len < HEADER_LEN then Err(LogRecordTooShort)
    else if crc(buf[8..]) != Le32Value(buf[4..8]) then Err(LogCrcMismatch)
    else Ok(buf[8..])
  }

  /** Reading the locator an append returned yields exactly the appended
      payload. */
  lemma ReadAfterAppend(crc: Checksum, log: Log, data: Bytes)
    requires |data| + HEADER_LEN < TWO_32
    ensures var a := Append(crc, log, data); Read(crc, a.log, a.loc) == Ok(data)
  {
    var a := Append(crc, log, data);
    var rec := Record(crc, data);
    assert ReadAt(a.log.file, a.loc.offset, a.loc.len) == rec;
    LeBytesInjective(Le32Value(rec[0..4]), MAGIC, 4);
    LeValueOfLeBytes(crc(data), 4);
  }

  /** A later append never changes what an earlier locator reads back: the new
      record starts at the cursor, past every earlier record. */
  lemma AppendKeepsEarlierReads(crc: Checksum, log: Log, data: Bytes, loc: Locator)
    requires loc.offset + loc.len <= log.cursor
    ensures Read(crc, Append(crc, log, data).log, loc) == Read(crc, log, loc)
  {
    var a := Append(crc, log, data);
    ReadAtDisjointWrite(log.file, log.cursor, Record(crc, data), loc.offset, loc.len);
  }
}

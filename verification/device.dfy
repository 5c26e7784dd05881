/** Page frames on a page-space file (`Device::write_page` / `read_page`).
    Frame `id` occupies bytes [id * 4096, id * 4096 + 4096) and holds
    `crc32(payload) LE ++ len(payload) LE ++ payload`; the rest of the frame is
    whatever was there before. Generic in the page type P and its codec. */
module Device {
  import opened Bytes
  import opened Errors
  import opened Codec
  import opened Calibration

  function FrameOffset(id: nat): nat
  {
    id * FRAME_SIZE
  }

  /** The 4096 bytes `read_page` reads for frame id. */
  function FrameBytes(file: Bytes, id: nat): (buf: Bytes)
    ensures |buf| == FRAME_SIZE
  {
    ReadAt(file, FrameOffset(id), FRAME_SIZE)
  }

  /** The CRC field of a frame. */
  function StoredCrc(buf: Bytes): U32
    requires |buf| == FRAME_SIZE
  {
    Le32Value(buf[0..4])
  }

  /** The declared payload length of a frame. */
  function StoredLen(buf: Bytes): U32
    requires |buf| == FRAME_SIZE
  {
    Le32Value(buf[4..8])
  }

  /** The declared payload of a frame, when it fits in the frame. */
  function Payload(buf: Bytes): (data: Bytes)
    requires |buf| == FRAME_SIZE && 8 + StoredLen(buf) <= FRAME_SIZE
    ensures |data| == StoredLen(buf)
  {
    buf[8..8 + StoredLen(buf)]
  }

  /** The bytes `write_page` writes for an encoded payload. */
  function Frame(crc: Checksum, data: Bytes): (f: Bytes)
    requires |data| <= PAYLOAD_MAX
    ensures |f| == 8 + |data| <= FRAME_SIZE
    ensures LeValue(f[0..4]) == crc(data) && LeValue(f[4..8]) == |data| && f[8..] == data
  {
    var f := Le32(crc(data)) + Le32(|data|) + data;
    assert f[0..4] == Le32(crc(data)) && f[4..8] == Le32(|data|);
    f
  }

  /** `write_page`: encode, refuse (panic) a payload over 4088 bytes, write the
      frame at offset id * 4096. */
  function WritePage<P>(codec: Codec<P>, crc: Checksum, file: Bytes, id: nat, page: P): (r: Result<Bytes>)
    ensures r.Ok? <==> |codec.encode(page)| <= PAYLOAD_MAX
    ensures r.Err? ==> r.error == PageTooLarge
    ensures r.Ok? ==> ReadAt(r.value, FrameOffset(id), 8 + |codec.encode(page)|)
                      == Frame(crc, codec.encode(page))
    ensures r.Ok? ==> forall j: nat :: j != id ==> FrameBytes(r.value, j) == FrameBytes(file, j)
  {
    var data := codec.encode(page);
    if |data| > PAYLOAD_MAX then Err(PageTooLarge)
    else
      var file' := WriteAt(file, FrameOffset(id), Frame(crc, data));
      ReadAtOwnWrite(file, FrameOffset(id), Frame(crc, data));
      WriteKeepsOtherFrames(file, id, Frame(crc, data));
      Ok(file')
  }

  lemma WriteKeepsOtherFrames(file: Bytes, id: nat, f: Bytes)
    requires |f| <= FRAME_SIZE
    ensures forall j: nat :: j != id ==>
      FrameBytes(WriteAt(file, FrameOffset(id), f), j) == FrameBytes(file, j)
  {
    forall j: nat | j != id
      ensures FrameBytes(WriteAt(file, FrameOffset(id), f), j) == FrameBytes(file, j)
    {
      if j < id {
        assert FrameOffset(j) + FRAME_SIZE <= FrameOffset(id);
      } else {
        assert FrameOffset(id) + |f| <= FrameOffset(j);
      }
      ReadAtDisjointWrite(file, FrameOffset(id), f, FrameOffset(j), FRAME_SIZE);
    }
  }

  /** `read_page`: read the frame, panic on a length past the frame or on a CRC
      mismatch, and report a payload that does not decode as "no page". */
  function ReadPage<P>(codec: Codec<P>, crc: Checksum, file: Bytes, id: nat): (r: Result<Option<P>>)
    ensures var buf := FrameBytes(file, id);
      && (r.Ok? ==> 8 + StoredLen(buf) <= FRAME_SIZE && crc(Payload(buf)) == StoredCrc(buf)
                    && r.value == codec.decode(Payload(buf)))
      && (8 + StoredLen(buf) > FRAME_SIZE <==> r == Err(PageLengthOutOfRange))
      && ((8 + StoredLen(buf) <= FRAME_SIZE && crc(Payload(buf)) != StoredCrc(buf))
            <==> r == Err(PageCrcMismatch))
  {
    var buf := FrameBytes(file, id);
    if 8 + StoredLen(buf) > FRAME_SIZE then Err(PageLengthOutOfRange)
    else
      var data := Payload(buf);
      if crc(data) != StoredCrc(buf) then Err(PageCrcMismatch)
      else match codec.decode(data)
        case Some(p) => Ok(Some(p))
        case None => Ok(None)
  }

  /** A page written to a frame reads back from it, given that the codec
      round-trips it. */
  lemma ReadAfterWrite<P>(codec: Codec<P>, crc: Checksum, file: Bytes, id: nat, page: P)
    requires RoundTrips(codec, page)
    requires WritePage(codec, crc, file, id, page).Ok?
    ensures ReadPage(codec, crc, WritePage(codec, crc, file, id, page).value, id) == Ok(Some(page))
  {
    var data := codec.encode(page);
    var file' := WritePage(codec, crc, file, id, page).value;
    var buf := FrameBytes(file', id);
    ReadAtPrefix(file', FrameOffset(id), FRAME_SIZE, 8 + |data|);
    FrameFields(crc, data, buf);
  }

  /** A frame buffer that starts with the frame of `data` declares `data`'s
      length and checksum, and its payload is `data`. */
  lemma FrameFields(crc: Checksum, data: Bytes, buf: Bytes)
    requires |data| <= PAYLOAD_MAX && |buf| == FRAME_SIZE
    requires buf[..8 + |data|] == Frame(crc, data)
    ensures StoredLen(buf) == |data| && StoredCrc(buf) == crc(data)
    ensures 8 + StoredLen(buf) <= FRAME_SIZE && Payload(buf) == data
  {
    var f := Frame(crc, data);
    assert buf[0..4] == f[0..4] && buf[4..8] == f[4..8];
    LeValueOfLeBytes(StoredLen(buf), 4);
    LeValueOfLeBytes(StoredCrc(buf), 4);
    assert Payload(buf) == f[8..];
  }

  /** Writing one frame never changes what another frame reads as. */
  lemma WriteIsolatesFrames<P>(codec: Codec<P>, crc: Checksum, file: Bytes, id: nat, page: P, other: nat)
    requires WritePage(codec, crc, file, id, page).Ok? && other != id
    ensures ReadPage(codec, crc, WritePage(codec, crc, file, id, page).value, other)
         == ReadPage(codec, crc, file, other)
  {
  }

  /** A frame of zeros (never written) reads as "no page": CRC-32 of the empty
      payload is 0 and the empty payload does not decode. */
  lemma ZeroFrameReadsNone<P>(codec: Codec<P>, crc: Checksum, file: Bytes, id: nat)
    requires EmptyCrcIsZero(crc) && RejectsEmpty(codec)
    requires FrameBytes(file, id) == Repeat(0, FRAME_SIZE)
    ensures ReadPage(codec, crc, file, id) == Ok(None)
  {
    var buf := FrameBytes(file, id);
    assert buf[0..4] == Repeat(0, 4) && buf[4..8] == Repeat(0, 4);
    LeValueOfZeros(4);
    assert StoredLen(buf) == 0 && StoredCrc(buf) == 0;
    assert Payload(buf) == [];
  }

  /** In particular every frame at or past the end of the file reads as "no
      page" — this is how `new` detects an uninitialised main page space. */
  lemma FramePastEndReadsNone<P>(codec: Codec<P>, crc: Checksum, file: Bytes, id: nat)
    requires EmptyCrcIsZero(crc) && RejectsEmpty(codec)
    requires |file| <= FrameOffset(id)
    ensures ReadPage(codec, crc, file, id) == Ok(None)
  {
    ReadAtPastEnd(file, FrameOffset(id), FRAME_SIZE);
    ZeroFrameReadsNone(codec, crc, file, id);
  }
}

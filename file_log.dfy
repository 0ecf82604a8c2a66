/** The append-only record log kept in one file. Each record is stored as a
    frame: the payload length as 8 big-endian bytes, the payload, and the
    CRC-32 (IEEE) of the payload as 4 big-endian bytes. A record is
    addressed by the byte offset at which its frame starts. */
module FileLogs {
  import opened Binary
  import opened Crc32
  import opened Errors

  const LengthSize: nat := 8
  const ChecksumSize: nat := 4
  const FrameOverhead: nat := LengthSize + ChecksumSize

  function Min(a: nat, b: nat): nat
  {
    if a <= b then a else b
  }

  /** A checksum over payloads. The log protects its frames with
      Crc32.ChecksumIEEE; the framing lemmas below hold for any checksum. */
  type Checksum = bytes -> uint32

  /** The length field of the frame that stores `record`. */
  function LengthField(record: bytes): (field: bytes)
    requires |record| < Pow256(LengthSize)
    ensures |field| == LengthSize
  {
    ToBigEndian(|record|, LengthSize)
  }

  /** The checksum field of the frame that stores `record`. */
  function ChecksumField(sum: Checksum, record: bytes): (field: bytes)
    ensures |field| == ChecksumSize
  {
    Pow256Widths();
    ToBigEndian(sum(record), ChecksumSize)
  }

  /** The frame that stores `record`. */
  function Frame(sum: Checksum, record: bytes): (frame: bytes)
    requires |record| < Pow256(LengthSize)
    ensures |frame| == FrameOverhead + |record|
  {
    LengthField(record) + record + ChecksumField(sum, record)
  }

  /** The number of bytes a read positioned at `pos` can still obtain. */
  function Available(file: bytes, pos: nat): nat
  {
    if pos < |file| then |file| - pos else 0
  }

  /** A full read of `n` bytes at `pos`, classified the way io.ReadFull
      classifies it: the bytes obtained, and no error when all `n` arrived,
      EOF when none did, UnexpectedEOF when only some did. */
  function ReadFullAt(file: bytes, pos: nat, n: nat): (r: (bytes, Option<Error>))
    ensures r.1.None? <==> n <= Available(file, pos)
    ensures r.1.None? ==> |r.0| == n
    ensures r.1.None? && n > 0 ==> pos + n <= |file| && r.0 == file[pos..pos + n]
    ensures r.1.Some? ==> (r.1.value == EOF <==> Available(file, pos) == 0)
    ensures r.1.Some? ==> r.1.value in {EOF, UnexpectedEOF}
  {
    var k := Min(n, Available(file, pos));
    var got := if k == 0 then [] else file[pos..pos + k];
    (got, if k == n then None else if k == 0 then Some(EOF) else Some(UnexpectedEOF))
  }

  datatype ReadResult = ReadOk(record: bytes, nextOffset: nat) | ReadErr(error: Error)

  /** What reading the frame that starts at `offset` yields: the seek fails
      for offsets that do not fit a signed 64-bit position; then the length,
      the payload and the checksum are each read in full, and the checksum
      must match the payload. */
  function ParseFrame(sum: Checksum, file: bytes, offset: nat): (r: ReadResult)
    ensures r.ReadOk? ==> r.nextOffset == offset + FrameOverhead + |r.record|
    ensures r.ReadOk? ==> r.nextOffset <= |file|
    ensures offset >= |file| ==> r == ReadErr(if offset <= MaxInt64 then EOF else InvalidSeek)
  {
    if offset > MaxInt64 then ReadErr(InvalidSeek)
    else
      var (header, err) := ReadFullAt(file, offset, LengthSize);
      if err.Some? then ReadErr(err.value)
      else ParsePayload(sum, file, offset, FromBigEndian(header))
  }

  /** The rest of ParseFrame once the length prefix has been read. */
  function ParsePayload(sum: Checksum, file: bytes, offset: nat, length: nat): (r: ReadResult)
    requires offset + LengthSize <= |file|
    ensures r.ReadOk? ==> |r.record| == length && r.nextOffset == offset + FrameOverhead + length <= |file|
  {
    var (record, err) := ReadFullAt(file, offset + LengthSize, length);
    if err.Some? then ReadErr(err.value)
    else ParseChecksum(sum, file, offset, record)
  }

  /** The rest of ParseFrame once the payload has been read. */
  function ParseChecksum(sum: Checksum, file: bytes, offset: nat, record: bytes): (r: ReadResult)
    requires offset + LengthSize + |record| <= |file|
    ensures r.ReadOk? ==> r.record == record && r.nextOffset == offset + FrameOverhead + |record| <= |file|
  {
    var end := offset + LengthSize + |record|;
    var (stored, err) := ReadFullAt(file, end, ChecksumSize);
    if err.Some? then ReadErr(err.value)
    else if sum(record) != FromBigEndian(stored) then ReadErr(Corruption)
    else ReadOk(record, end + ChecksumSize)
  }

  /** The parts of a concatenation sit one after the other. */
  lemma FieldsAt(prefix: bytes, header: bytes, record: bytes, stored: bytes, suffix: bytes)
    requires |header| == LengthSize && |stored| == ChecksumSize
    ensures var file := prefix + (header + record + stored) + suffix;
            var o := |prefix|;
            && o + FrameOverhead + |record| <= |file|
            && file[o..o + LengthSize] == header
            && file[o + LengthSize..o + LengthSize + |record|] == record
            && file[o + LengthSize + |record|..o + FrameOverhead + |record|] == stored
  {
    var file := prefix + (header + record + stored) + suffix;
    assert file == prefix + header + (record + stored + suffix);
    assert file == (prefix + header) + record + (stored + suffix);
    assert file == (prefix + header + record) + stored + suffix;
  }

  /** Three consecutive slices of a file make up the slice they span. */
  lemma SlicesAt(file: bytes, offset: nat, a: bytes, b: bytes, c: bytes)
    requires offset + |a| + |b| + |c| <= |file|
    requires file[offset..offset + |a|] == a
    requires file[offset + |a|..offset + |a| + |b|] == b
    requires file[offset + |a| + |b|..offset + |a| + |b| + |c|] == c
    ensures file[offset..offset + |a| + |b| + |c|] == a + b + c
  {
    var i, j, k, l := offset, offset + |a|, offset + |a| + |b|, offset + |a| + |b| + |c|;
    assert file[i..l] == file[i..j] + file[j..k] + file[k..l];
  }

  /** A length prefix that encodes `length` hands the read on to the payload. */
  lemma ParseFrameHeader(sum: Checksum, file: bytes, offset: nat, length: nat)
    requires offset <= MaxInt64
    requires offset + LengthSize <= |file|
    requires length < Pow256(LengthSize)
    requires file[offset..offset + LengthSize] == ToBigEndian(length, LengthSize)
    ensures ParseFrame(sum, file, offset) == ParsePayload(sum, file, offset, length)
  {
    DecodeEncode(length, LengthSize);
  }

  /** A complete payload hands the read on to the checksum. */
  lemma ParseFramePayload(sum: Checksum, file: bytes, offset: nat, record: bytes)
    requires offset + LengthSize + |record| <= |file|
    requires file[offset + LengthSize..offset + LengthSize + |record|] == record
    ensures ParsePayload(sum, file, offset, |record|) == ParseChecksum(sum, file, offset, record)
  {
  }

  /** A complete checksum field decides between the record and corruption. */
  lemma ParseFrameChecksum(sum: Checksum, file: bytes, offset: nat, record: bytes, stored: bytes)
    requires |stored| == ChecksumSize
    requires offset + FrameOverhead + |record| <= |file|
    requires file[offset + LengthSize + |record|..offset + FrameOverhead + |record|] == stored
    ensures ParseChecksum(sum, file, offset, record)
            == if FromBigEndian(stored) == sum(record)
               then ReadOk(record, offset + FrameOverhead + |record|)
               else ReadErr(Corruption)
  {
  }

  /** A complete frame, whatever checksum it stores, reads as its record when
      the stored value is the checksum of the payload and as corruption when
      it is not. */
  lemma ReadStoredFrame(sum: Checksum, prefix: bytes, record: bytes, stored: bytes, suffix: bytes)
    requires |prefix| <= MaxInt64
    requires |record| < Pow256(LengthSize)
    requires |stored| == ChecksumSize
    ensures ParseFrame(sum, prefix + (LengthField(record) + record + stored) + suffix, |prefix|)
            == if FromBigEndian(stored) == sum(record)
               then ReadOk(record, |prefix| + FrameOverhead + |record|)
               else ReadErr(Corruption)
  {
    var file := prefix + (LengthField(record) + record + stored) + suffix;
    var o := |prefix|;
    FieldsAt(prefix, LengthField(record), record, stored, suffix);
    ParseFrameHeader(sum, file, o, |record|);
    ParseFramePayload(sum, file, o, record);
    ParseFrameChecksum(sum, file, o, record, stored);
  }

  /** Round trip: the frame of a record, wherever it sits in the file and
      whatever follows it, reads back as that record, and the next offset is
      the end of the frame. */
  lemma ReadFrame(sum: Checksum, prefix: bytes, record: bytes, suffix: bytes)
    requires |prefix| <= MaxInt64
    requires |record| < Pow256(LengthSize)
    ensures ParseFrame(sum, prefix + Frame(sum, record) + suffix, |prefix|)
            == ReadOk(record, |prefix| + FrameOverhead + |record|)
  {
    Pow256Widths();
    DecodeEncode(sum(record), ChecksumSize);
    ReadStoredFrame(sum, prefix, record, ChecksumField(sum, record), suffix);
  }

  /** A complete frame whose stored checksum is not the checksum of its
      payload is reported as corruption, never returned as a record. */
  lemma ReadCorruptFrame(sum: Checksum, prefix: bytes, record: bytes, stored: bytes, suffix: bytes)
    requires |prefix| <= MaxInt64
    requires |record| < Pow256(LengthSize)
    requires |stored| == ChecksumSize
    requires FromBigEndian(stored) != sum(record)
    ensures ParseFrame(sum, prefix + (LengthField(record) + record + stored) + suffix, |prefix|)
            == ReadErr(Corruption)
  {
    ReadStoredFrame(sum, prefix, record, stored, suffix);
  }

  /** A frame whose checksum field holds any four bytes other than those
      Append writes for its payload reads as corruption: a damaged checksum
      field is always detected. */
  lemma ReadDamagedChecksumField(sum: Checksum, prefix: bytes, record: bytes, stored: bytes, suffix: bytes)
    requires |prefix| <= MaxInt64
    requires |record| < Pow256(LengthSize)
    requires |stored| == ChecksumSize
    requires stored != ChecksumField(sum, record)
    ensures ParseFrame(sum, prefix + (LengthField(record) + record + stored) + suffix, |prefix|)
            == ReadErr(Corruption)
  {
    Pow256Widths();
    DecodeEncode(sum(record), ChecksumSize);
    EncodingInjective(stored, ChecksumField(sum, record));
    ReadCorruptFrame(sum, prefix, record, stored, suffix);
  }

  /** A well-formed frame at an offset reads back as its record. */
  lemma FrameReadsOk(sum: Checksum, file: bytes, offset: nat, record: bytes)
    requires offset <= MaxInt64
    requires |record| < Pow256(LengthSize)
    requires offset + FrameOverhead + |record| <= |file|
    requires file[offset..offset + FrameOverhead + |record|] == Frame(sum, record)
    ensures ParseFrame(sum, file, offset) == ReadOk(record, offset + FrameOverhead + |record|)
  {
    var next := offset + FrameOverhead + |record|;
    assert file == file[..offset] + file[offset..next] + file[next..];
    ReadFrame(sum, file[..offset], record, file[next..]);
  }

  /** A well-formed frame that ends the file reads back as its record, and
      the next offset is the end of the file. */
  lemma ReadLastFrame(sum: Checksum, file: bytes, offset: nat, record: bytes)
    requires offset <= MaxInt64
    requires |record| < Pow256(LengthSize)
    requires offset + FrameOverhead + |record| == |file|
    requires file[offset..] == Frame(sum, record)
    ensures ParseFrame(sum, file, offset) == ReadOk(record, |file|)
  {
    FrameReadsOk(sum, file, offset, record);
  }

  /** What a successful read returns is what its three fields hold. */
  lemma ReadOkFields(sum: Checksum, file: bytes, offset: nat)
    requires ParseFrame(sum, file, offset).ReadOk?
    ensures var r := ParseFrame(sum, file, offset);
            var end := offset + LengthSize + |r.record|;
            && offset <= MaxInt64
            && r.nextOffset == end + ChecksumSize <= |file|
            && FromBigEndian(file[offset..offset + LengthSize]) == |r.record|
            && file[offset + LengthSize..end] == r.record
            && FromBigEndian(file[end..end + ChecksumSize]) == sum(r.record)
  {
  }

  /** Fields that hold a length, that many bytes and their checksum form the
      frame of those bytes. */
  lemma FieldsFormFrame(sum: Checksum, file: bytes, offset: nat, record: bytes)
    requires offset + FrameOverhead + |record| <= |file|
    requires FromBigEndian(file[offset..offset + LengthSize]) == |record|
    requires file[offset + LengthSize..offset + LengthSize + |record|] == record
    requires FromBigEndian(file[offset + LengthSize + |record|..offset + LengthSize + |record| + ChecksumSize])
             == sum(record)
    ensures |record| < Pow256(LengthSize)
    ensures file[offset..offset + FrameOverhead + |record|] == Frame(sum, record)
  {
    var end := offset + LengthSize + |record|;
    var header := file[offset..offset + LengthSize];
    var stored := file[end..end + ChecksumSize];
    EncodeDecode(header);
    EncodeDecode(stored);
    SlicesAt(file, offset, header, record, stored);
  }

  /** Whatever a read returns was stored as a well-formed frame, checksum
      and all, starting at the offset. */
  lemma ReadOkIsFrame(sum: Checksum, file: bytes, offset: nat)
    requires ParseFrame(sum, file, offset).ReadOk?
    ensures var r := ParseFrame(sum, file, offset);
            && offset <= MaxInt64
            && |r.record| < Pow256(LengthSize)
            && file[offset..offset + FrameOverhead + |r.record|] == Frame(sum, r.record)
  {
    ReadOkFields(sum, file, offset);
    FieldsFormFrame(sum, file, offset, ParseFrame(sum, file, offset).record);
  }

  /** A read succeeds exactly when a well-formed frame of that record starts
      at the offset: nothing but a stored frame is ever returned, and every
      stored frame reads back. */
  lemma ReadOkIffFrame(sum: Checksum, file: bytes, offset: nat, record: bytes, next: nat)
    ensures ParseFrame(sum, file, offset) == ReadOk(record, next) <==>
              && offset <= MaxInt64
              && |record| < Pow256(LengthSize)
              && next == offset + FrameOverhead + |record| <= |file|
              && file[offset..next] == Frame(sum, record)
  {
    if ParseFrame(sum, file, offset) == ReadOk(record, next) {
      ReadOkIsFrame(sum, file, offset);
    }
    if && offset <= MaxInt64
       && |record| < Pow256(LengthSize)
       && next == offset + FrameOverhead + |record| <= |file|
       && file[offset..next] == Frame(sum, record)
    {
      FrameReadsOk(sum, file, offset, record);
    }
  }

  /** Sequencing: after two appends, reading the first frame gives its record
      and the offset of the second, reading there gives the second record,
      and reading at the end gives EOF. */
  lemma ReadConsecutiveFrames(sum: Checksum, prefix: bytes, first: bytes, second: bytes)
    requires |prefix| + 2 * FrameOverhead + |first| + |second| <= MaxInt64
    ensures var file := prefix + Frame(sum, first) + Frame(sum, second);
            var o2 := |prefix| + FrameOverhead + |first|;
            && ParseFrame(sum, file, |prefix|) == ReadOk(first, o2)
            && ParseFrame(sum, file, o2) == ReadOk(second, o2 + FrameOverhead + |second|)
            && ParseFrame(sum, file, o2 + FrameOverhead + |second|) == ReadErr(EOF)
  {
    Pow256Widths();
    var head := prefix + Frame(sum, first);
    var file := head + Frame(sum, second);
    var o2 := |prefix| + FrameOverhead + |first|;
    assert ParseFrame(sum, file, |prefix|) == ReadOk(first, o2) by {
      ReadFrame(sum, prefix, first, Frame(sum, second));
    }
    assert ParseFrame(sum, file, o2) == ReadOk(second, o2 + FrameOverhead + |second|) by {
      ReadFrame(sum, head, second, []);
      assert head + Frame(sum, second) + [] == file;
    }
  }

  /** A frame cut short after `k` of its bytes (a write that did not finish)
      reads as EOF when the cut falls exactly before the payload of a
      non-empty record or exactly before the checksum, and as UnexpectedEOF
      everywhere else. */
  lemma ReadTornFrame(sum: Checksum, prefix: bytes, record: bytes, k: nat)
    requires |prefix| <= MaxInt64
    requires |record| < Pow256(LengthSize)
    requires 0 < k < FrameOverhead + |record|
    ensures ParseFrame(sum, prefix + Frame(sum, record)[..k], |prefix|)
            == ReadErr(if (k == LengthSize && |record| > 0) || k == LengthSize + |record|
                       then EOF else UnexpectedEOF)
  {
    var torn := Frame(sum, record)[..k];
    var file := prefix + torn;
    var o := |prefix|;
    if k >= LengthSize {
      assert ParseFrame(sum, file, o) == ParsePayload(sum, file, o, |record|) by {
        assert file[o..o + LengthSize] == torn[..LengthSize] == LengthField(record);
        ParseFrameHeader(sum, file, o, |record|);
      }
      if k >= LengthSize + |record| {
        assert file[o + LengthSize..o + LengthSize + |record|] == torn[LengthSize..LengthSize + |record|] == record;
        ParseFramePayload(sum, file, o, record);
      }
    }
  }

  /** How an append may go wrong at the operating-system level: not at all,
      or the write stops after `landed` bytes and reports an error. */
  datatype WriteFault = NoFault | Torn(landed: nat)

  /** A log over an open file handle. The handle's bytes are `file`; `open`
      is false once Close has released the handle. */
  class FileLog {
    var file: bytes
    var open: bool
    /** The seek position of the handle. */
    var position: nat

    ghost predicate Valid()
      reads this
    {
      |file| <= MaxInt64
    }

    /** Opens the log over a file that holds `existing`. */
    constructor (existing: bytes)
      requires |existing| <= MaxInt64
      ensures Valid()
      ensures file == existing && open && position == 0
    {
      file := existing;
      open := true;
      position := 0;
    }

    /** Reads `n` bytes at the current position, as io.ReadFull does. */
    method ReadFull(n: nat) returns (buf: bytes, err: Option<Error>)
      modifies this`position
      ensures (buf, err) == ReadFullAt(file, old(position), n)
      ensures position == old(position) + Min(n, Available(file, old(position)))
    {
      var k := Min(n, Available(file, position));
      buf := if k == 0 then [] else file[position..position + k];
      err := if k == n then None else if k == 0 then Some(EOF) else Some(UnexpectedEOF);
      position := position + k;
    }

    /** Writes the frame of `record` at the end of the file and returns the
        offset at which it starts. */
    method Append(record: bytes, fault: WriteFault) returns (offset: uint64, err: Option<Error>)
      requires Valid()
      requires |file| + FrameOverhead + |record| <= MaxInt64
      modifies this`file, this`position
      ensures Valid()
      ensures err.None? <==> old(open) && fault == NoFault
      ensures !old(open) ==> err == Some(InvalidHandle) && file == old(file)
      ensures err.None? ==> offset == |old(file)| && file == old(file) + Frame(ChecksumIEEE, record)
      ensures err.None? ==> position == |file|
      ensures old(open) && fault.Torn? ==>
                && err == Some(WriteFailed)
                && file == old(file) + Frame(ChecksumIEEE, record)[..Min(fault.landed, FrameOverhead + |record| - 1)]
      ensures err.Some? ==> offset == 0
    {
      if !open {
        return 0, Some(InvalidHandle);
      }
      offset := |file|;
      position := |file|;
      var frame := Frame(ChecksumIEEE, record);
      match fault {
        case NoFault =>
          file := file + frame;
          position := |file|;
          err := None;
        case Torn(landed) =>
          var k := Min(landed, |frame| - 1);
          file := file + frame[..k];
          position := position + k;
          offset, err := 0, Some(WriteFailed);
      }
    }

    /** Reads the record whose frame starts at `offset` and returns it with
        the offset of the frame that follows. */
    method Read(offset: uint64) returns (r: ReadResult)
      requires Valid()
      modifies this`position
      ensures r == if old(open) then ParseFrame(ChecksumIEEE, file, offset) else ReadErr(InvalidHandle)
      ensures r.ReadOk? ==> position == r.nextOffset
    {
      if !open {
        return ReadErr(InvalidHandle);
      }
      if offset > MaxInt64 {
        return ReadErr(InvalidSeek);
      }
      position := offset;
      var header, err := ReadFull(LengthSize);
      if err.Some? {
        return ReadErr(err.value);
      }
      r := ReadPayload(offset, FromBigEndian(header));
    }

    /** Read, once the length prefix of the frame at `offset` has been read. */
    method ReadPayload(offset: nat, length: nat) returns (r: ReadResult)
      requires position == offset + LengthSize <= |file|
      modifies this`position
      ensures r == ParsePayload(ChecksumIEEE, file, offset, length)
      ensures r.ReadOk? ==> position == r.nextOffset
    {
      var record, err := ReadFull(length);
      if err.Some? {
        return ReadErr(err.value);
      }
      r := ReadChecksum(offset, record);
    }

    /** Read, once the payload of the frame at `offset` has been read. */
    method ReadChecksum(offset: nat, record: bytes) returns (r: ReadResult)
      requires position == offset + LengthSize + |record| <= |file|
      modifies this`position
      ensures r == ParseChecksum(ChecksumIEEE, file, offset, record)
      ensures r.ReadOk? ==> position == r.nextOffset
    {
      var stored, err := ReadFull(ChecksumSize);
      if err.Some? {
        return ReadErr(err.value);
      }
      if ChecksumIEEE(record) != FromBigEndian(stored) {
        return ReadErr(Corruption);
      }
      r := ReadOk(record, offset + FrameOverhead + |record|);
    }

    /** Closes the handle. Closing a closed log does nothing and succeeds; a
        close the operating system rejects keeps the handle. */
    method Close(fault: bool) returns (err: Option<Error>)
      modifies this`open
      ensures err == (if old(open) && fault then Some(CloseFailed) else None)
      ensures open == (old(open) && fault)
    {
      if open {
        if fault {
          return Some(CloseFailed);
        }
        open := false;
      }
      err := None;
    }
  }
}

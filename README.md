# Write-ahead log: framed record log and key-value replay

This project models the write-ahead log in `03-write-ahead-log`. It has two
layers.

**FileLog** (module `FileLogs`) is an append-only log of records kept in one
file. Each record is stored as a frame:

- the payload length as 8 big-endian bytes;
- the payload;
- the CRC-32 (IEEE polynomial) of the payload as 4 big-endian bytes.

A record is addressed by the offset where its frame starts, and reading it
returns the offset of the next frame, `offset + 8 + len + 4`.

- The file is a byte sequence held by a `FileLog` class, with an `open` flag
  that `Close` clears and a seek position.
- `Append` writes a frame at the end of the file.
- `Read` seeks to an offset and reads the length, the payload and the
  checksum in turn. Errors are classified the way Go's `io.ReadFull` and
  `binary.Read` classify them:
  - `EOF` when no byte of a field is left;
  - `UnexpectedEOF` when only part of a field is left;
  - `Corruption` when the stored checksum does not match the payload;
  - `InvalidSeek` for an offset that does not fit a signed 64-bit position;
  - `InvalidHandle` after `Close`.
- The pure function `ParseFrame` is what `Read` computes. Lemmas prove:
  - the round trip of an appended frame;
  - that a successful read is exactly a stored frame (both directions);
  - the sequencing of consecutive frames;
  - what a corrupt frame reads as;
  - what a torn frame reads as.
- The framing functions and lemmas take the checksum as a parameter. The
  class uses `Crc32.ChecksumIEEE`, which is a bitwise definition of CRC-32.
- Big-endian fields (module `Binary`) come with round-trip and injectivity
  lemmas.

**WriteAheadLog** (module `Wal`, with operations in module `Operations`) is a
key-value map whose changes are first appended to a FileLog as encoded write
operations (`PUT` = 0, `DELETE` = 1).

- `Put` and `Delete` append a record and update the map only when the append
  succeeds.
- `Get` is a map lookup, and an absent key reads as empty.
- Opening a write-ahead log replays the log from offset 0 (`readAllLogEntries`):
  - it decodes frame after frame and applies each operation to an empty map
    in log order;
  - it stops cleanly at `EOF`;
  - any other read error, and any payload that does not decode, makes the
    open fail.
- `ScanFrom` and `ReplayLog` are the pure functions of the replay.
  `ReadAllLogEntries` is the loop, proved against them.
- The central invariant `WriteAheadLog.Consistent` says that the map is what
  a strict replay of the whole file builds (`Wal.ScanFromStrict`, below). The
  invariant holds after opening a log whose replay ends at the end of the
  file, and every successful `Put` and `Delete` preserves it. `Wal.Reopen`
  then opens a new write-ahead log over the same file, and it gets the same
  map, so every `Get` answers the same.

**A partial frame is not always an error.** A frame may be cut off exactly
after its length field (with a non-empty payload), or exactly after its
payload. Either cut leaves the next field with no bytes at all. Go reports
that as a plain `io.EOF`, and replay takes it as the clean end of the log.

- Such a file opens without error.
- The torn frame is ignored only until the next append. The next frame is
  written after the torn bytes, and a later replay reads it as part of the
  torn frame (`FileLogs.ReadTornFrame`, `Wal.TornTailOutcome`,
  `Wal.TornHeaderSwallowsNextAppend`).
- A cut anywhere else gives `UnexpectedEOF`, and the open fails.

The model reads logs as the code does. The strict replay, which reports a
torn frame as `UnexpectedEOF`, is the condition `Consistent` keeps. It is
described under Findings.

**The record encoding.** The repository encodes operations with
`encoding/gob`. That library is not part of this model. In its place is a
stand-in codec:

- the type tag as an 8-byte two's-complement word;
- then the key and the value, each behind an 8-byte big-endian length.

Its round trip (`Operations.OperationRoundTrip`) and its exactness
(`Operations.DecodedIsEncoding`) are proved, not assumed.

I/O faults are parameters:

- `WriteFault` says whether an append's write failed and how many bytes of
  the frame landed before it did;
- a boolean says whether the operating system rejected a close.

## Model

| member | source | states |
|---|---|---|
| `Binary.ToBigEndian` | 03-write-ahead-log/file_log.go:43-47 | the big-endian write of binary.Write: the field is exactly `width` bytes long; with FromBigEndian it is characterised by DecodeEncode, EncodeDecode and EncodingInjective |
| `Binary.FromBigEndian` | 03-write-ahead-log/file_log.go:82-86 | the big-endian read of binary.Read: the value fits the field's width (below 256^length); characterised by DecodeEncode, EncodeDecode and EncodingInjective |
| `Binary.DecodeEncode` | 03-write-ahead-log/file_log.go:44-47 | a value below 256^width written as a big-endian field of that width reads back as itself |
| `Binary.EncodeDecode` | 03-write-ahead-log/file_log.go:82-86 | every field is the big-endian encoding, at its own width, of the value read from it |
| `Binary.EncodingInjective` | 03-write-ahead-log/file_log.go:96-103 | two fields of one width are equal exactly when they hold the same value; FileLogs.ReadDamagedChecksumField uses it to show that comparing the stored checksum as a number catches any change to its bytes |
| `FileLogs.LengthField` | 03-write-ahead-log/file_log.go:37-47 | the length field of a frame is 8 bytes long; ParseFrameHeader reads it back as the record's length |
| `FileLogs.ChecksumField` | 03-write-ahead-log/file_log.go:55-62 | the checksum field of a frame is 4 bytes long; ParseFrameChecksum and ReadDamagedChecksumField say how it is checked |
| `Crc32.ChecksumIEEE` | 03-write-ahead-log/file_log.go:55-56 | definition with no ensures: CRC-32 with the reflected IEEE polynomial, the register started as all ones and complemented at the end; no lemma characterises its values (see Left out), and every framing lemma holds for any checksum in its place |
| `FileLogs.Frame` | 03-write-ahead-log/file_log.go:38-62 | the frame of a record is 8 + len + 4 bytes long |
| `FileLogs.ReadFullAt` | 03-write-ahead-log/file_log.go:90-93 | a full read of n bytes succeeds exactly when n bytes remain, and then returns exactly those bytes; otherwise it fails with EOF exactly when nothing remains, and with UnexpectedEOF when only part of the n bytes remains |
| `FileLogs.ParseFrame` | 03-write-ahead-log/file_log.go:74-110 | a successful read ends inside the file at offset + 8 + len + 4; a read at or past the end of the file gives EOF, or a seek error when the offset does not fit an int64 |
| `FileLogs.ParsePayload` | 03-write-ahead-log/file_log.go:88-93 | once the length is read, a successful read returns a payload of that length and ends at offset + 12 + length |
| `FileLogs.ParseChecksum` | 03-write-ahead-log/file_log.go:95-109 | once the payload is read, success returns that payload and the offset just after its checksum |
| `FileLogs.ParseFrameHeader` | 03-write-ahead-log/file_log.go:81-86 | a complete length field hands the read on to the payload of that length |
| `FileLogs.ParseFramePayload` | 03-write-ahead-log/file_log.go:88-93 | a complete payload hands the read on to the checksum |
| `FileLogs.ParseFrameChecksum` | 03-write-ahead-log/file_log.go:95-109 | a complete checksum field gives the record when it matches the payload's checksum, and corruption otherwise |
| `FileLogs.ReadStoredFrame` | 03-write-ahead-log/file_log.go:102-109 | a frame with any stored checksum, anywhere in a file, reads as its record when the checksum matches and as corruption when it does not |
| `FileLogs.ReadFrame` | 03-write-ahead-log/file_log.go:74-110 | round trip: the frame of a record, wherever it sits and whatever follows it, reads back as that record with next offset = start + 8 + len + 4 |
| `FileLogs.ReadCorruptFrame` | 03-write-ahead-log/file_log.go:102-105 | a complete frame whose stored checksum differs from the payload's checksum reads as corruption and never as a record |
| `FileLogs.ReadDamagedChecksumField` | 03-write-ahead-log/file_log.go:102-105 | a frame whose checksum field holds any four bytes other than those Append writes for its payload reads as corruption and never as a record |
| `FileLogs.FrameReadsOk` | 03-write-ahead-log/file_log.go:74-110 | a well-formed frame found at an offset reads back as its record |
| `FileLogs.ReadLastFrame` | 03-write-ahead-log/file_log.go:107-109 | a frame that ends the file reads back with next offset equal to the file length |
| `FileLogs.ReadOkFields` | 03-write-ahead-log/file_log.go:81-109 | a successful read returns what the three fields hold: the length field holds the record's length, the payload is the record, and the checksum field holds its checksum |
| `FileLogs.FieldsFormFrame` | 03-write-ahead-log/file_log.go:38-62 | three fields that hold a record's length, the record and its checksum are that record's frame |
| `FileLogs.ReadOkIsFrame` | 03-write-ahead-log/file_log.go:74-110 | whatever a read returns was stored as the well-formed frame of that record, starting at the offset |
| `FileLogs.ReadOkIffFrame` | 03-write-ahead-log/file_log.go:74-110 | both directions: a read at an offset returns (record, next) exactly when the frame of that record is stored from that offset to next |
| `FileLogs.ReadConsecutiveFrames` | 03-write-ahead-log/file_log.go:108 | after appending two records, reading the first gives the second's offset as next offset, reading there gives the second record, and reading after it gives EOF |
| `FileLogs.ReadTornFrame` | 03-write-ahead-log/file_log.go:81-100 | a frame cut short after k of its bytes reads as EOF when the cut falls exactly before a non-empty payload or exactly before the checksum, and as UnexpectedEOF everywhere else |
| `FileLogs.FileLog.constructor` | 03-write-ahead-log/file_log.go:18-25 | a log opened over existing contents holds exactly them, is open, and is positioned at 0 |
| `FileLogs.FileLog.ReadFull` | 03-write-ahead-log/file_log.go:90 | reading n bytes at the position returns what ReadFullAt classifies, and advances the position by the bytes obtained |
| `FileLogs.FileLog.Append` | 03-write-ahead-log/file_log.go:27-72 | on a closed log: invalid handle and nothing written; otherwise success exactly when the write does not fail, with the old length returned as the offset and the file extended by exactly the record's frame; on a failed write: an error, offset 0, and only a proper prefix of the frame appended |
| `FileLogs.FileLog.Read` | 03-write-ahead-log/file_log.go:74-110 | on an open log the result is ParseFrame of the file at the offset; on a closed log, invalid handle; the file is never changed |
| `FileLogs.FileLog.ReadPayload` | 03-write-ahead-log/file_log.go:88-93 | continuing a read after the length field gives ParsePayload's result |
| `FileLogs.FileLog.ReadChecksum` | 03-write-ahead-log/file_log.go:95-109 | continuing a read after the payload gives ParseChecksum's result |
| `FileLogs.FileLog.Close` | 03-write-ahead-log/file_log.go:112-121 | closing an open log releases the handle unless the operating system rejects the close, which keeps it and returns the error; closing a closed log does nothing and succeeds |
| `Operations.PutOp` | 03-write-ahead-log/wal.go:67-71 | definition with no ensures: the PUT operation of a key and value; PutThenDelete and WriteAheadLog.Put are stated with it |
| `Operations.DeleteOp` | 03-write-ahead-log/wal.go:95-98 | definition with no ensures: the DELETE operation of a key, with an empty value; PutThenDelete and WriteAheadLog.Delete are stated with it |
| `Operations.TagRoundTrip` | 03-write-ahead-log/wal.go:28-34 | every 64-bit operation type, PUT, DELETE or any other, survives its encoding |
| `Operations.Encode` | 03-write-ahead-log/wal.go:73-80 | the encoding of an operation is 24 bytes longer than its key and value together |
| `Operations.Decode` | 03-write-ahead-log/wal.go:140-147 | decoding fails only with a decode error |
| `Operations.OperationRoundTrip` | 03-write-ahead-log/wal.go:140-147 | decoding the encoding of an operation gives that operation back |
| `Operations.DecodedIsEncoding` | 03-write-ahead-log/wal.go:140-147 | both directions: a payload decodes to an operation exactly when it is that operation's encoding |
| `Operations.Lookup` | 03-write-ahead-log/wal.go:61-63 | definition with no ensures: the value mapped to a key, or empty for an absent key, as indexing a Go map yields; WriteAheadLog.Get returns it and PutThenDelete is stated with it |
| `Operations.Apply` | 03-write-ahead-log/wal.go:150-157 | a PUT maps its key to its value, a DELETE removes its key, any other type leaves the map unchanged, and no other key is touched |
| `Operations.Replay` | 03-write-ahead-log/wal.go:122-161 | definition with no ensures: Apply folded over the operations in log order, starting from an empty map; characterised by ReplaySnoc and ReplayLastWriteWins |
| `Operations.LastWrite` | 03-write-ahead-log/wal.go:150-157 | the last write of a key is a PUT or DELETE of that key taken from the log |
| `Operations.ReplayLastWriteWins` | 03-write-ahead-log/wal.go:122-161 | after replay a key is present exactly when its last PUT/DELETE is a PUT, and then it holds that PUT's value |
| `Operations.ReplaySnoc` | 03-write-ahead-log/wal.go:127-161 | replaying one more operation applies it to the map replayed so far, so replay goes strictly in log order |
| `Operations.PutThenDelete` | 03-write-ahead-log/wal.go:89-116 | a PUT followed by a DELETE of the same key leaves that key reading as empty and every other key as it was |
| `Wal.ScanFromStrict` | 03-write-ahead-log/wal.go:127-161 | replay with EOF accepted only at a frame boundary: whenever it succeeds from an offset inside the file, it has read up to the end of the file |
| `Wal.RecoverStrict` | 03-write-ahead-log/wal.go:124-133 | definition with no ensures: the strict replay from offset 0; StrictReplayIffComplete relates it to Recover and WriteAheadLog.Consistent is stated with it |
| `Wal.StrictReplayIffComplete` | 03-write-ahead-log/wal.go:127-161 | both directions: the strict replay succeeds with a scan exactly when the replay as written succeeds with that scan and the scan ends at the end of the file |
| `Wal.TornHeaderSwallowsNextAppend` | 03-write-ahead-log/file_log.go:88-100 | a log holding only a length field L replays cleanly to no operations, and so does that log after a frame of exactly L bytes is appended: the appended operation is lost |
| `Wal.StrictRejectsTornHeader` | 03-write-ahead-log/wal.go:129-137 | under the strict rule both logs of TornHeaderSwallowsNextAppend fail to replay, rather than hiding the appended operation |
| `Wal.ScanFrom` | 03-write-ahead-log/wal.go:127-161 | a replay that succeeds ends at or after its starting offset and, when it starts inside the file, no later than the file's end |
| `Wal.Recover` | 03-write-ahead-log/wal.go:124-161 | definition with no ensures: replay from offset 0; characterised by ReplayLogOf, AppendFrameExtendsScan, TornTailOutcome, CorruptFrameAborts, UndecodableRecordAborts and StrictReplayIffComplete |
| `Wal.ReplayLog` | 03-write-ahead-log/wal.go:120-165 | definition with no ensures: the map Replay builds from what Recover decoded, or Recover's error; ReadAllLogEntries is proved to return it and ReplayLogOf computes it for logs of successful appends |
| `Wal.ReadOkExtends` | 03-write-ahead-log/file_log.go:74-110 | a successful read is unaffected by bytes appended to the file after it |
| `Wal.ScanExtends` | 03-write-ahead-log/wal.go:127-161 | replay from an offset that reaches the end of a file is unaffected by appending, except that it goes on to read what was appended |
| `Wal.ScanAtEnd` | 03-write-ahead-log/wal.go:129-133 | replay from the end of the file decodes nothing and stops cleanly there |
| `Wal.AppendFrameExtendsScan` | 03-write-ahead-log/wal.go:120-165 | appending the frame of a decodable record to a log that replays to its end yields a log that replays the same operations plus the new one, up to the new end |
| `Wal.TornTailOutcome` | 03-write-ahead-log/wal.go:129-137 | a log that replays to its end, followed by a torn frame, replays the same operations and ignores the tail when the cut falls exactly before the payload or the checksum; otherwise replay fails with UnexpectedEOF |
| `Wal.CorruptFrameAborts` | 03-write-ahead-log/wal.go:134-137 | a complete frame with a wrong checksum after the replayed part makes replay fail with corruption |
| `Wal.UndecodableRecordAborts` | 03-write-ahead-log/wal.go:140-147 | a well-formed frame whose payload does not decode makes replay fail with a decode error |
| `Wal.LogOf` | 03-write-ahead-log/wal.go:82-86 | definition with no ensures: the file that successfully appending the encodings of a list of operations to an empty log produces; ReplayLogOf replays it |
| `Wal.ReplayLogOf` | 03-write-ahead-log/wal.go:120-165 | a log written only by successful appends of encoded operations replays exactly those operations, in order, to its end, and rebuilds the map they produce |
| `Wal.ReadAllLogEntries` | 03-write-ahead-log/wal.go:120-165 | the replay loop returns exactly ReplayLog of the file (the map, or the first error other than EOF) on an open log, and an invalid handle error on a closed one |
| `Wal.WriteAheadLog.Consistent` | 03-write-ahead-log/wal.go:9-19 | the central invariant, a definition: the strict replay of the whole log file succeeds and the map is what it builds. By StrictReplayIffComplete this means the replay as written reaches the end of the file and builds the map. Opening establishes it when replay reaches the end, successful Put and Delete preserve it, and Reopen rebuilds the same map from it |
| `Wal.WriteAheadLog.constructor` | 03-write-ahead-log/wal.go:55-58 | a write-ahead log holds the log and map it is given |
| `Wal.WriteAheadLog.Get` | 03-write-ahead-log/wal.go:61-63 | returns Lookup of the map: the mapped value, or empty for an absent key; never fails, and changes nothing |
| `Wal.WriteAheadLog.Put` | 03-write-ahead-log/wal.go:65-91 | succeeds exactly when the log is open and the write does not fail. On success, exactly one PUT frame is appended, the key is mapped to the value, and consistency with the log is preserved. On failure the map is unchanged and Append's error is returned: on a closed log, an invalid-handle error with the file unchanged; on a failed write, a write error with a proper prefix of the frame appended |
| `Wal.WriteAheadLog.Delete` | 03-write-ahead-log/wal.go:93-118 | succeeds exactly when the log is open and the write does not fail, whether or not the key was present. On success, exactly one DELETE frame is appended, the key is removed, and consistency is preserved. On failure the map is unchanged and Append's error is returned: on a closed log, an invalid-handle error with the file unchanged; on a failed write, a write error with a proper prefix of the frame appended |
| `Wal.Reopen` | 03-write-ahead-log/wal_test.go:74-107 | opening a new write-ahead log over the file of a consistent one succeeds, holds the same map and is itself consistent, so every Get answers as before |
| `Wal.NewWriteAheadLogWithFileLog` | 03-write-ahead-log/wal.go:49-59 | opening succeeds exactly when the log is open and its replay succeeds. The new write-ahead log holds the replayed map, and it is consistent when replay reached the end of the file. On failure it returns the replay's error and no write-ahead log |

## Left out

- The Read I/O errors other than running out of bytes (a disk error, for example) are not modelled. Each read obtains what the file holds.
- Allocating the payload buffer before the payload is read (`file_log.go:89`) is not modelled. A huge length prefix in a damaged file would make the Go program fail to allocate. The model instead reads on and reports UnexpectedEOF, or EOF when nothing follows the length field, which replay takes as a clean end.
- The seek at the start of Append can fail only on a closed handle in the model, which then returns InvalidHandle. The other seek failures of the operating system are not modelled.
- FileLogs.FileLog.Append: a write error reported after every byte of the frame landed is not modelled. A failed write lands at most all bytes but one.
- The unused `buffer` field of FileLog is not modelled.
- The `Log` interface in `log.go` declares signatures only and is not part of this model.
- The file opening in `NewFileLog` and the path wrapper `NewWriteAheadLog` are not modelled. The FileLog constructor takes the file's existing contents instead.
- `encoding/gob` and `gob.Register` are not part of this model. The stand-in codec differs from gob in these ways:
  - it rejects a payload with bytes left over after the operation, which gob would leave unread;
  - it cannot fail to encode, whereas `Put` and `Delete` return a gob encoding error (which cannot arise for this struct);
  - gob's merging of nil and empty byte slices does not arise, because values are sequences.
- Wal.WriteAheadLog.Get: the Go map yields nil for an absent key and the stored slice otherwise. The model returns the empty sequence for an absent key, so an absent key and a key mapped to an empty value read the same, as they do in the program.
- Nothing is promised about reads at offsets that do not start a frame. Whether such a read fails depends on the bytes found there.
- Crc32.ChecksumIEEE is defined bitwise with the reflected IEEE polynomial. No lemma ties it to published check values, and nothing about its error-detecting strength is proved. The framing and replay lemmas hold for any checksum function.
- FileLogs.FileLog.Close: the state of the operating-system handle after a rejected close is not modelled. The handle is simply kept, as the code keeps it.
- Concurrency is not modelled. The program has none.
- Values are modelled as immutable sequences. In the program, Put stores the caller's value slice itself and Get returns the stored slice. A caller who writes into either slice changes the map without any log record, which breaks the agreement between the map and the log. That aliasing is not modelled. Keys are copied when converted to strings, so they are not affected.
- Wal.WriteAheadLog.Put: consistency is promised only after a successful append. A failed append may leave part of a frame in the file (its contract says which part), and what a reopen then sees is described by Wal.TornTailOutcome.
- Wal.WriteAheadLog.Delete: consistency is promised only after a successful append, as for Put.
- FileLogs.FileLog.Append, Wal.WriteAheadLog.Put and Wal.WriteAheadLog.Delete require the file to stay within 2^63 - 1 bytes and the encoded operation to fit a byte slice. Longer files would make offsets overflow the int64 seek position.
- Operations.DecodedIsEncoding requires the payload to be at most 2^63 - 1 bytes long, which every payload read from a log is.

## Findings

| source | as written | input that shows it | evidently intended | confidence | as-written member | corrected member |
|---|---|---|---|---|---|---|
| 03-write-ahead-log/file_log.go:88-100 | Read returns a plain EOF when the payload or checksum field of a frame has no bytes left, and replay (wal.go:129-133) takes any EOF as the clean end of the log. A torn frame at a field boundary is therefore accepted, and later appends land behind it | a log holding only the 8-byte length field L (a failed append), followed by a successful Put whose frame is exactly L bytes: reopening reads that frame as the payload, finds no checksum bytes, stops cleanly, and the Put is lost | a successful Put or Delete is seen by every later reopen; EOF is a clean end only at a frame boundary, and a torn frame is reported | not executed; proved on the model | `Wal.TornHeaderSwallowsNextAppend` | `Wal.ScanFromStrict` (with `Wal.StrictReplayIffComplete` and `Wal.StrictRejectsTornHeader`); `WriteAheadLog.Consistent` is stated with it, and Put and Delete preserve it |

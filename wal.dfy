/** The write-ahead log: a key-value map whose every change is first
    appended to a FileLog as an encoded write operation, and which is
    rebuilt on opening by replaying the log from offset 0. */
module Wal {
  import opened Binary
  import opened Crc32
  import opened Errors
  import opened FileLogs
  import opened Operations

  /** The operations a replay decoded, in log order, and the offset at which
      it met EOF. */
  datatype Scan = Scan(ops: seq<WriteOperation>, end: nat)

  /** `ops` followed by what `r` decoded; an error stays an error. */
  function Prepend(ops: seq<WriteOperation>, r: Result<Scan>): Result<Scan>
  {
    match r
    case Ok(s) => Ok(Scan(ops + s.ops, s.end))
    case Err(e) => Err(e)
  }

  /** What replay reads from `offset` on: frame after frame, each decoded
      into an operation, until a read reports EOF; any other read error and
      any payload that does not decode end the replay with that error. */
  function ScanFrom(sum: Checksum, file: bytes, offset: nat): (r: Result<Scan>)
    ensures r.Ok? ==> offset <= r.value.end
    ensures r.Ok? && offset <= |file| ==> r.value.end <= |file|
    decreases if offset < |file| then |file| - offset else 0
  {
    match ParseFrame(sum, file, offset)
    case ReadErr(e) => if e == EOF then Ok(Scan([], offset)) else Err(e)
    case ReadOk(record, next) =>
      match Decode(record)
      case Err(e) => Err(e)
      case Ok(op) => Prepend([op], ScanFrom(sum, file, next))
  }

  /** Replay of a whole log, from offset 0. */
  function Recover(sum: Checksum, file: bytes): Result<Scan>
  {
    ScanFrom(sum, file, 0)
  }

  /** The map replay of a whole log builds. */
  function ReplayLog(sum: Checksum, file: bytes): Result<map<bytes, bytes>>
  {
    match Recover(sum, file)
    case Ok(s) => Ok(Replay(s.ops))
    case Err(e) => Err(e)
  }

  /** Replay under a strict end-of-log rule: EOF ends the log cleanly only
      at a frame boundary, where no byte of the next length field is left.
      EOF met while reading the payload or the checksum of a frame whose
      length field was read means the frame is torn, and is reported as
      UnexpectedEOF. A strict replay that succeeds has read the whole file. */
  function ScanFromStrict(sum: Checksum, file: bytes, offset: nat): (r: Result<Scan>)
    ensures r.Ok? && offset <= |file| ==> r.value.end == |file|
    decreases if offset < |file| then |file| - offset else 0
  {
    match ParseFrame(sum, file, offset)
    case ReadErr(e) =>
      if e != EOF then Err(e)
      else if offset < |file| then Err(UnexpectedEOF)
      else Ok(Scan([], offset))
    case ReadOk(record, next) =>
      match Decode(record)
      case Err(e) => Err(e)
      case Ok(op) => Prepend([op], ScanFromStrict(sum, file, next))
  }

  /** Strict replay of a whole log, from offset 0. */
  function RecoverStrict(sum: Checksum, file: bytes): Result<Scan>
  {
    ScanFromStrict(sum, file, 0)
  }

  /** Prepending twice is prepending the concatenation. */
  lemma PrependTwice(a: seq<WriteOperation>, b: seq<WriteOperation>, r: Result<Scan>)
    ensures Prepend(a, Prepend(b, r)) == Prepend(a + b, r)
  {
    if r.Ok? {
      assert a + (b + r.value.ops) == (a + b) + r.value.ops;
    }
  }

  /** Prepending nothing changes nothing. */
  lemma PrependNothing(r: Result<Scan>)
    ensures Prepend([], r) == r
  {
    if r.Ok? {
      assert [] + r.value.ops == r.value.ops;
    }
  }

  /** Prepending to a replay of one operation. */
  lemma PrependOne(whole: Result<Scan>, last: Result<Scan>, ops: seq<WriteOperation>, op: WriteOperation, end: nat)
    requires whole == Prepend(ops, last)
    requires last == Ok(Scan([op], end))
    ensures whole == Ok(Scan(ops + [op], end))
  {
  }

  /** Bytes appended after a readable frame do not change how it reads. */
  lemma ReadOkExtends(sum: Checksum, file: bytes, grown: bytes, offset: nat)
    requires file <= grown
    requires ParseFrame(sum, file, offset).ReadOk?
    ensures ParseFrame(sum, grown, offset) == ParseFrame(sum, file, offset)
  {
    var r := ParseFrame(sum, file, offset);
    ReadOkIffFrame(sum, file, offset, r.record, r.nextOffset);
    assert grown[offset..r.nextOffset] == file[offset..r.nextOffset];
    ReadOkIffFrame(sum, grown, offset, r.record, r.nextOffset);
  }

  /** A replay that reaches the end of a file reads the same operations
      from any longer file that starts with it, and then goes on reading at
      the end of the shorter one. */
  lemma {:induction false} ScanExtends(sum: Checksum, file: bytes, grown: bytes, offset: nat, ops: seq<WriteOperation>)
    requires file <= grown
    requires offset <= |file|
    requires ScanFrom(sum, file, offset) == Ok(Scan(ops, |file|))
    ensures ScanFrom(sum, grown, offset) == Prepend(ops, ScanFrom(sum, grown, |file|))
    decreases |file| - offset
  {
    if offset == |file| {
      assert ops == [];
      PrependNothing(ScanFrom(sum, grown, |file|));
    } else {
      var read := ParseFrame(sum, file, offset);
      ReadOkExtends(sum, file, grown, offset);
      var op := Decode(read.record).value;
      var rest := ScanFrom(sum, file, read.nextOffset).value.ops;
      assert ops == [op] + rest;
      ScanExtends(sum, file, grown, read.nextOffset, rest);
      PrependTwice([op], rest, ScanFrom(sum, grown, |file|));
    }
  }

  /** One step of replay: a frame that reads and decodes contributes its
      operation, and replay goes on at the next frame. */
  lemma ScanStep(sum: Checksum, file: bytes, offset: nat, record: bytes, next: nat, op: WriteOperation)
    requires ParseFrame(sum, file, offset) == ReadOk(record, next)
    requires Decode(record) == Ok(op)
    ensures ScanFrom(sum, file, offset) == Prepend([op], ScanFrom(sum, file, next))
  {
  }

  /** A replay that reaches the end of a file stops there. */
  lemma ScanAtEnd(sum: Checksum, file: bytes, end: nat)
    requires end == |file| <= MaxInt64
    ensures ScanFrom(sum, file, end) == Ok(Scan([], end))
  {
  }

  /** Replay at a last frame whose payload decodes reads that operation and
      then stops at the end of the file. */
  lemma ScanLastFrame(sum: Checksum, file: bytes, offset: nat, record: bytes, op: WriteOperation)
    requires |file| <= MaxInt64
    requires ParseFrame(sum, file, offset) == ReadOk(record, |file|)
    requires Decode(record) == Ok(op)
    ensures ScanFrom(sum, file, offset) == Ok(Scan([op], |file|))
  {
    ScanStep(sum, file, offset, record, |file|, op);
    ScanAtEnd(sum, file, |file|);
    assert [op] + [] == [op];
  }

  /** Appending a frame whose payload decodes to a log that replays cleanly
      to its end gives a log that replays to its end with that operation
      added last. */
  lemma AppendFrameExtendsScan(sum: Checksum, file: bytes, grown: bytes, ops: seq<WriteOperation>, record: bytes, op: WriteOperation)
    requires Recover(sum, file) == Ok(Scan(ops, |file|))
    requires |file| + FrameOverhead + |record| <= MaxInt64
    requires file <= grown && grown[|file|..] == Frame(sum, record)
    requires Decode(record) == Ok(op)
    ensures Recover(sum, grown) == Ok(Scan(ops + [op], |grown|))
  {
    Pow256Widths();
    var last := ScanFrom(sum, grown, |file|);
    assert ScanFrom(sum, grown, 0) == Prepend(ops, last) by {
      ScanExtends(sum, file, grown, 0, ops);
    }
    assert last == Ok(Scan([op], |grown|)) by {
      ReadLastFrame(sum, grown, |file|, record);
      ScanLastFrame(sum, grown, |file|, record, op);
    }
    PrependOne(ScanFrom(sum, grown, 0), last, ops, op, |grown|);
  }

  /** A failed append can leave part of a frame at the end of the log. When
      the cut falls exactly before the payload of a non-empty record or
      exactly before the checksum, the read there reports EOF, so replay
      accepts the log and ignores the partial frame; any other cut makes
      replay fail with an unexpected EOF. */
  lemma TornTailOutcome(sum: Checksum, file: bytes, grown: bytes, ops: seq<WriteOperation>, record: bytes, k: nat)
    requires |file| <= MaxInt64
    requires Recover(sum, file) == Ok(Scan(ops, |file|))
    requires |record| < Pow256(LengthSize)
    requires 0 < k < FrameOverhead + |record|
    requires file <= grown && grown[|file|..] == Frame(sum, record)[..k]
    ensures Recover(sum, grown)
            == if (k == LengthSize && |record| > 0) || k == LengthSize + |record|
               then Ok(Scan(ops, |file|))
               else Err(UnexpectedEOF)
  {
    var last := ScanFrom(sum, grown, |file|);
    assert ScanFrom(sum, grown, 0) == Prepend(ops, last) by {
      ScanExtends(sum, file, grown, 0, ops);
    }
    assert ParseFrame(sum, grown, |file|)
           == ReadErr(if (k == LengthSize && |record| > 0) || k == LengthSize + |record|
                      then EOF else UnexpectedEOF) by {
      assert grown == file + Frame(sum, record)[..k];
      ReadTornFrame(sum, file, record, k);
    }
    assert ops + [] == ops;
  }

  /** A complete frame whose checksum does not match its payload makes
      replay fail with a corruption error. */
  lemma CorruptFrameAborts(sum: Checksum, file: bytes, grown: bytes, ops: seq<WriteOperation>, record: bytes, stored: bytes)
    requires |file| <= MaxInt64
    requires Recover(sum, file) == Ok(Scan(ops, |file|))
    requires |record| < Pow256(LengthSize)
    requires |stored| == ChecksumSize
    requires FromBigEndian(stored) != sum(record)
    requires file <= grown && grown[|file|..] == LengthField(record) + record + stored
    ensures Recover(sum, grown) == Err(Corruption)
  {
    var last := ScanFrom(sum, grown, |file|);
    assert ScanFrom(sum, grown, 0) == Prepend(ops, last) by {
      ScanExtends(sum, file, grown, 0, ops);
    }
    assert ParseFrame(sum, grown, |file|) == ReadErr(Corruption) by {
      assert grown == file + (LengthField(record) + record + stored) + [];
      ReadCorruptFrame(sum, file, record, stored, []);
    }
  }

  /** A well-formed frame whose payload is not an encoded operation makes
      replay fail with a decoding error. */
  lemma UndecodableRecordAborts(sum: Checksum, file: bytes, grown: bytes, ops: seq<WriteOperation>, record: bytes)
    requires |file| <= MaxInt64
    requires Recover(sum, file) == Ok(Scan(ops, |file|))
    requires |record| < Pow256(LengthSize)
    requires Decode(record).Err?
    requires file <= grown && grown[|file|..] == Frame(sum, record)
    ensures Recover(sum, grown) == Err(DecodeFailed)
  {
    var last := ScanFrom(sum, grown, |file|);
    assert ScanFrom(sum, grown, 0) == Prepend(ops, last) by {
      ScanExtends(sum, file, grown, 0, ops);
    }
    assert ParseFrame(sum, grown, |file|) == ReadOk(record, |grown|) by {
      ReadLastFrame(sum, grown, |file|, record);
    }
  }

  /** Prepending one operation gives `s` exactly when `s` starts with that
      operation and the rest of `s` is what was prepended to. */
  lemma PrependOneIff(op: WriteOperation, t: Scan, s: Scan)
    ensures Prepend([op], Ok(t)) == Ok(s) <==> s.ops != [] && s.ops[0] == op && t == Scan(s.ops[1..], s.end)
  {
    if s.ops != [] && s.ops[0] == op && t == Scan(s.ops[1..], s.end) {
      assert [op] + s.ops[1..] == s.ops;
    }
    if Prepend([op], Ok(t)) == Ok(s) {
      assert s.ops[1..] == t.ops;
    }
  }

  /** Both directions: the strict replay from an offset succeeds with a scan
      exactly when the replay as the code does it succeeds with that scan
      and the scan reaches the end of the file. The two differ only on logs
      that end in a frame torn at a field boundary. */
  lemma {:induction false} StrictReplayIffComplete(sum: Checksum, file: bytes, offset: nat, s: Scan)
    requires offset <= |file|
    ensures ScanFromStrict(sum, file, offset) == Ok(s) <==> ScanFrom(sum, file, offset) == Ok(s) && s.end == |file|
    decreases |file| - offset
  {
    match ParseFrame(sum, file, offset)
    case ReadErr(e) =>
    case ReadOk(record, next) =>
      if Decode(record).Ok? {
        var op := Decode(record).value;
        if s.ops != [] && s.ops[0] == op {
          StrictReplayIffComplete(sum, file, next, Scan(s.ops[1..], s.end));
        }
        if ScanFromStrict(sum, file, next).Ok? {
          PrependOneIff(op, ScanFromStrict(sum, file, next).value, s);
        }
        if ScanFrom(sum, file, next).Ok? {
          PrependOneIff(op, ScanFrom(sum, file, next).value, s);
        }
      }
  }

  /** As the code reads a log: a log whose last append left only its length
      field, holding L, opens cleanly, because the payload read finds no
      bytes. A later successful append of a frame exactly L bytes long is
      then read as the missing payload, the checksum read after it finds no
      bytes, and replay again stops cleanly: the appended operation is
      silently lost on reopening. */
  lemma TornHeaderSwallowsNextAppend(sum: Checksum, op: WriteOperation)
    requires Encodable(op)
    requires FrameOverhead + |Encode(op)| < Pow256(LengthSize)
    ensures var frame := Frame(sum, Encode(op));
            var torn := ToBigEndian(|frame|, LengthSize);
            && Recover(sum, torn) == Ok(Scan([], 0))
            && Recover(sum, torn + frame) == Ok(Scan([], 0))
  {
    Pow256Widths();
    var frame := Frame(sum, Encode(op));
    var torn := ToBigEndian(|frame|, LengthSize);
    assert ParseFrame(sum, torn, 0) == ReadErr(EOF) by {
      assert torn[0..LengthSize] == torn;
      ParseFrameHeader(sum, torn, 0, |frame|);
    }
    var file := torn + frame;
    assert ParseFrame(sum, file, 0) == ReadErr(EOF) by {
      assert file[0..LengthSize] == torn;
      ParseFrameHeader(sum, file, 0, |frame|);
      assert file[LengthSize..LengthSize + |frame|] == frame;
      ParseFramePayload(sum, file, 0, frame);
    }
  }

  /** Under the strict rule neither log of TornHeaderSwallowsNextAppend
      opens: the torn frame is reported instead of hiding the append. */
  lemma StrictRejectsTornHeader(sum: Checksum, op: WriteOperation)
    requires Encodable(op)
    requires FrameOverhead + |Encode(op)| < Pow256(LengthSize)
    ensures var frame := Frame(sum, Encode(op));
            var torn := ToBigEndian(|frame|, LengthSize);
            && RecoverStrict(sum, torn).Err?
            && RecoverStrict(sum, torn + frame).Err?
  {
    var frame := Frame(sum, Encode(op));
    var torn := ToBigEndian(|frame|, LengthSize);
    TornHeaderSwallowsNextAppend(sum, op);
    if RecoverStrict(sum, torn).Ok? {
      StrictReplayIffComplete(sum, torn, 0, RecoverStrict(sum, torn).value);
    }
    if RecoverStrict(sum, torn + frame).Ok? {
      StrictReplayIffComplete(sum, torn + frame, 0, RecoverStrict(sum, torn + frame).value);
    }
  }

  /** A non-empty sequence is its initial part followed by its last element. */
  lemma InitAndLast(ops: seq<WriteOperation>)
    requires ops != []
    ensures ops[..|ops| - 1] + [ops[|ops| - 1]] == ops
  {
  }

  /** The log that successfully writing `ops` in order to an empty file
      produces. */
  function LogOf(sum: Checksum, ops: seq<WriteOperation>): (file: bytes)
    requires forall op <- ops :: Encodable(op)
  {
    if ops == [] then []
    else
      assert forall op <- ops[..|ops| - 1] :: op in ops;
      Pow256Widths();
      LogOf(sum, ops[..|ops| - 1]) + Frame(sum, Encode(ops[|ops| - 1]))
  }

  /** Reopening a log written only by successful puts and deletes replays
      exactly the operations written, in order, and so rebuilds the map
      they produced. */
  lemma {:induction false} ReplayLogOf(sum: Checksum, ops: seq<WriteOperation>)
    requires forall op <- ops :: Encodable(op)
    requires |LogOf(sum, ops)| <= MaxInt64
    ensures Recover(sum, LogOf(sum, ops)) == Ok(Scan(ops, |LogOf(sum, ops)|))
    ensures ReplayLog(sum, LogOf(sum, ops)) == Ok(Replay(ops))
  {
    if ops == [] {
      ScanAtEnd(sum, [], 0);
    } else {
      var init, op := ops[..|ops| - 1], ops[|ops| - 1];
      InitAndLast(ops);
      ReplayLogOf(sum, init);
      OperationRoundTrip(op);
      var prev := LogOf(sum, init);
      assert prev <= LogOf(sum, ops) && LogOf(sum, ops)[|prev|..] == Frame(sum, Encode(op));
      AppendFrameExtendsScan(sum, prev, LogOf(sum, ops), init, Encode(op), op);
    }
  }

  /** Reads every record of `log` from offset 0 and replays it into a map. */
  method ReadAllLogEntries(log: FileLog) returns (res: Result<map<bytes, bytes>>)
    requires log.Valid()
    modifies log`position
    ensures res == if log.open then ReplayLog(ChecksumIEEE, log.file) else Err(InvalidHandle)
  {
    var data: map<bytes, bytes> := map[];
    var offset: uint64 := 0;
    ghost var ops: seq<WriteOperation> := [];
    PrependNothing(Recover(ChecksumIEEE, log.file));
    while true
      invariant log.Valid()
      invariant offset <= |log.file|
      invariant log.open ==> Recover(ChecksumIEEE, log.file) == Prepend(ops, ScanFrom(ChecksumIEEE, log.file, offset))
      invariant data == Replay(ops)
      decreases |log.file| - offset
    {
      var r := log.Read(offset);
      match r
      case ReadErr(e) =>
        if e == EOF {
          assert ops + [] == ops;
          return Ok(data);
        }
        return Err(e);
      case ReadOk(record, nextOffset) =>
        var decoded := Decode(record);
        if decoded.Err? {
          return Err(decoded.error);
        }
        var op := decoded.value;
        if op.opType == PUT {
          data := data[op.key := op.value];
        } else if op.opType == DELETE {
          data := data - {op.key};
        }
        PrependTwice(ops, [op], ScanFrom(ChecksumIEEE, log.file, nextOffset));
        ReplaySnoc(ops, op);
        ops := ops + [op];
        offset := nextOffset;
    }
  }

  /** A key-value map kept in step with a FileLog. */
  class WriteAheadLog {
    const log: FileLog
    var data: map<bytes, bytes>

    ghost predicate Valid()
      reads this, log
    {
      log.Valid()
    }

    /** The map is what the strict replay of the whole log file builds: the
        file holds no torn frame, and reopening rebuilds this map. */
    ghost predicate Consistent()
      reads this, log
    {
      var s := RecoverStrict(ChecksumIEEE, log.file);
      s.Ok? && data == Replay(s.value.ops)
    }

    constructor (log: FileLog, data: map<bytes, bytes>)
      ensures this.log == log && this.data == data
    {
      this.log := log;
      this.data := data;
    }

    /** The value of `key`; an absent key gives an empty value. Never fails
        and never touches the log. */
    method Get(key: bytes) returns (value: bytes, err: Option<Error>)
      ensures value == Lookup(data, key)
      ensures err == None
    {
      value := if key in data then data[key] else [];
      err := None;
    }

    /** Appends a PUT of `key` and `value` to the log, then maps `key` to
        `value`; when the append fails the map is left as it was. */
    method Put(key: bytes, value: bytes, fault: WriteFault) returns (err: Option<Error>)
      requires Valid()
      requires Encodable(PutOp(key, value))
      requires |log.file| + FrameOverhead + |Encode(PutOp(key, value))| <= MaxInt64
      modifies log`file, log`position, this`data
      ensures Valid()
      ensures err.None? <==> old(log.open) && fault == NoFault
      ensures err.None? ==> log.file == old(log.file) + Frame(ChecksumIEEE, Encode(PutOp(key, value)))
      ensures err.None? ==> data == old(data)[key := value]
      ensures !old(log.open) ==> err == Some(InvalidHandle) && log.file == old(log.file)
      ensures old(log.open) && fault.Torn? ==>
                && err == Some(WriteFailed)
                && log.file == old(log.file) + Frame(ChecksumIEEE, Encode(PutOp(key, value)))[..Min(fault.landed, FrameOverhead + |Encode(PutOp(key, value))| - 1)]
      ensures err.Some? ==> data == old(data)
      ensures err.None? && old(Consistent()) ==> Consistent()
    {
      ghost var before := log.file;
      ghost var s := RecoverStrict(ChecksumIEEE, before);
      var op := PutOp(key, value);
      var _, e := log.Append(Encode(op), fault);
      if e.Some? {
        return e;
      }
      data := data[key := value];
      if old(Consistent()) {
        StrictReplayIffComplete(ChecksumIEEE, before, 0, s.value);
        OperationRoundTrip(op);
        assert before <= log.file && log.file[|before|..] == Frame(ChecksumIEEE, Encode(op));
        AppendFrameExtendsScan(ChecksumIEEE, before, log.file, s.value.ops, Encode(op), op);
        StrictReplayIffComplete(ChecksumIEEE, log.file, 0, Scan(s.value.ops + [op], |log.file|));
        ReplaySnoc(s.value.ops, op);
      }
      err := None;
    }

    /** Appends a DELETE of `key` to the log, then removes `key` from the
        map; deleting an absent key is logged and succeeds too. When the
        append fails the map is left as it was. */
    method Delete(key: bytes, fault: WriteFault) returns (err: Option<Error>)
      requires Valid()
      requires Encodable(DeleteOp(key))
      requires |log.file| + FrameOverhead + |Encode(DeleteOp(key))| <= MaxInt64
      modifies log`file, log`position, this`data
      ensures Valid()
      ensures err.None? <==> old(log.open) && fault == NoFault
      ensures err.None? ==> log.file == old(log.file) + Frame(ChecksumIEEE, Encode(DeleteOp(key)))
      ensures err.None? ==> data == old(data) - {key}
      ensures !old(log.open) ==> err == Some(InvalidHandle) && log.file == old(log.file)
      ensures old(log.open) && fault.Torn? ==>
                && err == Some(WriteFailed)
                && log.file == old(log.file) + Frame(ChecksumIEEE, Encode(DeleteOp(key)))[..Min(fault.landed, FrameOverhead + |Encode(DeleteOp(key))| - 1)]
      ensures err.Some? ==> data == old(data)
      ensures err.None? && old(Consistent()) ==> Consistent()
    {
      ghost var before := log.file;
      ghost var s := RecoverStrict(ChecksumIEEE, before);
      var op := DeleteOp(key);
      var _, e := log.Append(Encode(op), fault);
      if e.Some? {
        return e;
      }
      data := data - {key};
      if old(Consistent()) {
        StrictReplayIffComplete(ChecksumIEEE, before, 0, s.value);
        OperationRoundTrip(op);
        assert before <= log.file && log.file[|before|..] == Frame(ChecksumIEEE, Encode(op));
        AppendFrameExtendsScan(ChecksumIEEE, before, log.file, s.value.ops, Encode(op), op);
        StrictReplayIffComplete(ChecksumIEEE, log.file, 0, Scan(s.value.ops + [op], |log.file|));
        ReplaySnoc(s.value.ops, op);
      }
      err := None;
    }
  }

  /** Opens a write-ahead log over `log` by replaying it; a replay error is
      returned instead of a write-ahead log. */
  method NewWriteAheadLogWithFileLog(log: FileLog) returns (wal: WriteAheadLog?, err: Option<Error>)
    requires log.Valid()
    modifies log`position
    ensures err.None? <==> log.open && ReplayLog(ChecksumIEEE, log.file).Ok?
    ensures err.None? ==> wal != null && fresh(wal) && wal.log == log && wal.Valid()
    ensures err.None? ==> wal.data == ReplayLog(ChecksumIEEE, log.file).value
    ensures err.None? && Recover(ChecksumIEEE, log.file).value.end == |log.file| ==> wal.Consistent()
    ensures err.Some? ==> wal == null
    ensures err.Some? ==> err.value == if log.open then ReplayLog(ChecksumIEEE, log.file).error else InvalidHandle
  {
    var data := ReadAllLogEntries(log);
    if data.Err? {
      return null, Some(data.error);
    }
    wal := new WriteAheadLog(log, data.value);
    if Recover(ChecksumIEEE, log.file).value.end == |log.file| {
      StrictReplayIffComplete(ChecksumIEEE, log.file, 0, Recover(ChecksumIEEE, log.file).value);
    }
    err := None;
  }

  /** Reopening: closing a consistent write-ahead log and opening a new one
      over the same file succeeds and gives the same map, so every Get
      answers as it did before. */
  method Reopen(wal: WriteAheadLog) returns (reopened: WriteAheadLog?, err: Option<Error>)
    requires wal.Valid() && wal.Consistent()
    ensures err == None && reopened != null
    ensures reopened.data == wal.data
    ensures reopened.Consistent()
  {
    StrictReplayIffComplete(ChecksumIEEE, wal.log.file, 0, RecoverStrict(ChecksumIEEE, wal.log.file).value);
    var log := new FileLog(wal.log.file);
    reopened, err := NewWriteAheadLogWithFileLog(log);
  }
}

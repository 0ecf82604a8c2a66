/** Write operations: the records the write-ahead log stores, their encoding
    into log payloads, and the way replaying them rebuilds the key-value
    map. */
module Operations {
  import opened Binary
  import opened Errors

  /** The operation type tags. Any other tag value can be stored and decoded;
      replaying it changes nothing. */
  const PUT: int64 := 0
  const DELETE: int64 := 1

  datatype WriteOperation = WriteOperation(opType: int64, key: bytes, value: bytes)

  function PutOp(key: bytes, value: bytes): WriteOperation
  {
    WriteOperation(PUT, key, value)
  }

  /** A delete carries no value. */
  function DeleteOp(key: bytes): WriteOperation
  {
    WriteOperation(DELETE, key, [])
  }

  // ---------------------------------------------------------------------
  // Encoding. The repository encodes operations with encoding/gob; this
  // model uses a self-delimiting stand-in with the same guarantee, that
  // decoding an encoded operation gives it back: the tag as 8 bytes of
  // two's complement, then the key and the value, each behind an 8-byte
  // big-endian length.
  // ---------------------------------------------------------------------

  const FieldLengthSize: nat := 8

  /** Operations whose encoding fits in a byte slice. */
  predicate Encodable(op: WriteOperation)
  {
    8 + 2 * FieldLengthSize + |op.key| + |op.value| <= MaxInt64
  }

  /** The tag as a 64-bit two's-complement big-endian word. */
  function EncodeTag(t: int64): (s: bytes)
    ensures |s| == 8
  {
    Pow256Widths();
    ToBigEndian(if t < 0 then t + 0x1_0000_0000_0000_0000 else t, 8)
  }

  /** The signed value of a 64-bit two's-complement big-endian word. */
  function DecodeTag(s: bytes): int64
    requires |s| == 8
  {
    Pow256Widths();
    var n := FromBigEndian(s);
    if n < 0x8000_0000_0000_0000 then n else n - 0x1_0000_0000_0000_0000
  }

  /** A field behind its 8-byte big-endian length. */
  function EncodeField(field: bytes): (s: bytes)
    requires |field| < Pow256(FieldLengthSize)
    ensures |s| == FieldLengthSize + |field|
  {
    ToBigEndian(|field|, FieldLengthSize) + field
  }

  /** The length-prefixed field at the start of `s` and what follows it. */
  function DecodeField(s: bytes): (r: Result<(bytes, bytes)>)
    ensures r.Ok? ==> |r.value.0| + |r.value.1| + FieldLengthSize == |s|
  {
    if |s| < FieldLengthSize then Err(DecodeFailed)
    else
      var n := FromBigEndian(s[..FieldLengthSize]);
      if |s| - FieldLengthSize < n then Err(DecodeFailed)
      else Ok((s[FieldLengthSize..FieldLengthSize + n], s[FieldLengthSize + n..]))
  }

  function Encode(op: WriteOperation): (s: bytes)
    requires Encodable(op)
    ensures |s| == 8 + 2 * FieldLengthSize + |op.key| + |op.value|
  {
    Pow256Widths();
    EncodeTag(op.opType) + EncodeField(op.key) + EncodeField(op.value)
  }

  /** Decodes a whole payload; a payload that is too short, whose lengths
      overrun it, or that has bytes left over is rejected. */
  function Decode(s: bytes): (r: Result<WriteOperation>)
    ensures r.Err? ==> r.error == DecodeFailed
  {
    if |s| < 8 then Err(DecodeFailed)
    else
      match DecodeField(s[8..])
      case Err(e) => Err(e)
      case Ok((key, rest)) =>
        match DecodeField(rest)
        case Err(e) => Err(e)
        case Ok((value, tail)) =>
          if tail != [] then Err(DecodeFailed)
          else Ok(WriteOperation(DecodeTag(s[..8]), key, value))
  }

  /** Every 64-bit tag survives the two's-complement round trip. */
  lemma TagRoundTrip(t: int64)
    ensures DecodeTag(EncodeTag(t)) == t
  {
    Pow256Widths();
    DecodeEncode(if t < 0 then t + 0x1_0000_0000_0000_0000 else t, 8);
  }

  /** Every 8-byte word is the encoding of the tag it decodes to. */
  lemma TagWordRoundTrip(s: bytes)
    requires |s| == 8
    ensures EncodeTag(DecodeTag(s)) == s
  {
    Pow256Widths();
    EncodeDecode(s);
  }

  /** A length-prefixed field is read back, and what follows it is left. */
  lemma FieldRoundTrip(field: bytes, rest: bytes)
    requires |field| < Pow256(FieldLengthSize)
    ensures DecodeField(EncodeField(field) + rest) == Ok((field, rest))
  {
    var s := EncodeField(field) + rest;
    assert s[..FieldLengthSize] == ToBigEndian(|field|, FieldLengthSize);
    DecodeEncode(|field|, FieldLengthSize);
    assert s[FieldLengthSize..FieldLengthSize + |field|] == field;
    assert s[FieldLengthSize + |field|..] == rest;
  }

  /** What DecodeField splits off is a length-prefixed field. */
  lemma DecodedField(s: bytes)
    requires DecodeField(s).Ok?
    ensures var (field, rest) := DecodeField(s).value;
            |field| < Pow256(FieldLengthSize) && s == EncodeField(field) + rest
  {
    var n := FromBigEndian(s[..FieldLengthSize]);
    EncodeDecode(s[..FieldLengthSize]);
    assert s == s[..FieldLengthSize] + s[FieldLengthSize..FieldLengthSize + n] + s[FieldLengthSize + n..];
  }

  /** Round trip: decoding an encoded operation gives it back. */
  lemma {:induction false} OperationRoundTrip(op: WriteOperation)
    requires Encodable(op)
    ensures Decode(Encode(op)) == Ok(op)
  {
    Pow256Widths();
    var s := Encode(op);
    assert s[..8] == EncodeTag(op.opType);
    TagRoundTrip(op.opType);
    assert s[8..] == EncodeField(op.key) + (EncodeField(op.value) + []);
    FieldRoundTrip(op.key, EncodeField(op.value) + []);
    FieldRoundTrip(op.value, []);
  }

  /** A payload that decodes is the encoding of what it decodes to. */
  lemma DecodedOperation(s: bytes)
    requires |s| <= MaxInt64
    requires Decode(s).Ok?
    ensures Encodable(Decode(s).value) && s == Encode(Decode(s).value)
  {
    var op := Decode(s).value;
    var (key, rest) := DecodeField(s[8..]).value;
    DecodedField(s[8..]);
    assert s[8..] == EncodeField(key) + rest;
    DecodedField(rest);
    assert rest == EncodeField(op.value) + [];
    TagWordRoundTrip(s[..8]);
    assert s == s[..8] + s[8..];
  }

  /** Both directions: a payload decodes to an operation exactly when it is
      that operation's encoding, so decoding is exact and injective. */
  lemma DecodedIsEncoding(s: bytes, op: WriteOperation)
    requires |s| <= MaxInt64
    ensures Decode(s) == Ok(op) <==> Encodable(op) && s == Encode(op)
  {
    if Decode(s) == Ok(op) {
      DecodedOperation(s);
    }
    if Encodable(op) && s == Encode(op) {
      OperationRoundTrip(op);
    }
  }

  // ---------------------------------------------------------------------
  // Replay.
  // ---------------------------------------------------------------------

  /** The value a map holds for a key; an absent key reads as empty. */
  function Lookup(m: map<bytes, bytes>, key: bytes): bytes
  {
    if key in m then m[key] else []
  }

  /** The effect of one operation on the map: a PUT maps its key to its
      value, a DELETE removes its key, and any other tag changes nothing. */
  function Apply(m: map<bytes, bytes>, op: WriteOperation): (r: map<bytes, bytes>)
    ensures op.opType == PUT ==> op.key in r && r[op.key] == op.value
    ensures op.opType == DELETE ==> op.key !in r
    ensures op.opType != PUT && op.opType != DELETE ==> r == m
    ensures forall k :: k != op.key ==> (k in r <==> k in m)
    ensures forall k :: k != op.key && k in m ==> r[k] == m[k]
  {
    if op.opType == PUT then m[op.key := op.value]
    else if op.opType == DELETE then m - {op.key}
    else m
  }

  /** The map that applying `ops` in order to an empty map produces. */
  function Replay(ops: seq<WriteOperation>): map<bytes, bytes>
  {
    if ops == [] then map[] else Apply(Replay(ops[..|ops| - 1]), ops[|ops| - 1])
  }

  /** The last PUT or DELETE of `key` in `ops`, if there is one. */
  function LastWrite(ops: seq<WriteOperation>, key: bytes): (w: Option<WriteOperation>)
    ensures w.Some? ==> w.value in ops && w.value.key == key
    ensures w.Some? ==> w.value.opType == PUT || w.value.opType == DELETE
  {
    if ops == [] then None
    else
      var op := ops[|ops| - 1];
      if op.key == key && (op.opType == PUT || op.opType == DELETE) then Some(op)
      else LastWrite(ops[..|ops| - 1], key)
  }

  /** Last write wins: after replay a key holds the value of its last PUT,
      unless a DELETE came later or it was never written. */
  lemma {:induction false} ReplayLastWriteWins(ops: seq<WriteOperation>, key: bytes)
    ensures key in Replay(ops) <==> LastWrite(ops, key).Some? && LastWrite(ops, key).value.opType == PUT
    ensures key in Replay(ops) ==> Replay(ops)[key] == LastWrite(ops, key).value.value
  {
    if ops != [] {
      ReplayLastWriteWins(ops[..|ops| - 1], key);
    }
  }

  /** Replaying one more operation applies it to the map replayed so far. */
  lemma ReplaySnoc(ops: seq<WriteOperation>, op: WriteOperation)
    ensures Replay(ops + [op]) == Apply(Replay(ops), op)
  {
    assert (ops + [op])[..|ops|] == ops;
  }

  /** A PUT followed by a DELETE of the same key leaves the key absent and
      every other key as it was. */
  lemma PutThenDelete(ops: seq<WriteOperation>, key: bytes, value: bytes)
    ensures Lookup(Replay(ops + [PutOp(key, value), DeleteOp(key)]), key) == []
    ensures forall k :: k != key ==>
              Lookup(Replay(ops + [PutOp(key, value), DeleteOp(key)]), k) == Lookup(Replay(ops), k)
  {
    var both := ops + [PutOp(key, value), DeleteOp(key)];
    assert both[..|both| - 1] == ops + [PutOp(key, value)];
    ReplaySnoc(ops, PutOp(key, value));
  }
}

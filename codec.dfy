/** The on-disk record of main.go: a 13-byte header (timestamp, key length,
    value length, tombstone) followed by the key bytes and the value bytes.

    The encoder is modelled as main.go writes it: all three header integers
    go to `buf[:4]`, so only the value length survives there and bytes 4..11
    stay zero. `EncodeIntended` is the layout the header's readers expect. */
module Codec {
  import opened Bytes

  const HEADER_SIZE: nat := 13

  /** The unit of persistence (main.go's `Record`). */
  datatype Record = Record(key: seq<byte>, value: seq<byte>, timestamp: u32, tombstone: bool)

  /** Failures of the modelled operations: an empty key rejected by `Put`,
      a negative offset rejected by `Seek`, and a read that finds fewer bytes
      than it asks for. */
  datatype Error = EmptyKey | InvalidOffset | UnexpectedEof

  datatype Result<T> = Ok(value: T) | Err(error: Error)

  /** A record whose two lengths fit the header's `uint32` slots. */
  predicate Encodable(r: Record) {
    |r.key| < TWO_TO_THE_32 && |r.value| < TWO_TO_THE_32
  }

  /** The tombstone flag as the header byte `writeRecord` stores. */
  function TombstoneByte(tombstone: bool): (b: byte)
    ensures tombstone <==> b == 1
    ensures !tombstone <==> b == 0
  {
    if tombstone then 1 else 0
  }

  /** The bytes `writeRecord` appends for `r`, as main.go writes them:
      the last of three `PutUint32(buf[:4], ...)` calls wins. */
  function EncodeAsWritten(r: Record): (buf: seq<byte>)
    requires Encodable(r)
    ensures |buf| == HEADER_SIZE + |r.key| + |r.value|
  {
    BE32(|r.value|) + Zeros(8) + [TombstoneByte(r.tombstone)] + r.key + r.value
  }

  /** The layout the decoder reads: each header field in its own slot. */
  function EncodeIntended(r: Record): (buf: seq<byte>)
    requires Encodable(r)
    ensures |buf| == HEADER_SIZE + |r.key| + |r.value|
  {
    BE32(r.timestamp) + BE32(|r.key|) + BE32(|r.value|) + [TombstoneByte(r.tombstone)] + r.key + r.value
  }

  /** What `readRecord` returns for `offset` in a file whose bytes are `log`:
      a negative offset fails the seek, a header or body that runs past the
      end of the file fails the read, and otherwise the fields are taken at
      their fixed offsets. A successful decode never reaches past the lengths
      the header declares. */
  function DecodeAt(log: seq<byte>, offset: int): (r: Result<Record>)
    ensures r.Ok? ==> 0 <= offset && offset + HEADER_SIZE + |r.value.key| + |r.value.value| <= |log|
    ensures r.Ok? ==> |r.value.key| == FromBE32(log[offset + 4 .. offset + 8])
    ensures r.Ok? ==> |r.value.value| == FromBE32(log[offset + 8 .. offset + 12])
  {
    if offset < 0 then Err(InvalidOffset)
    else if offset + HEADER_SIZE > |log| then Err(UnexpectedEof)
    else
      var keyLen := FromBE32(log[offset + 4 .. offset + 8]);
      var valueLen := FromBE32(log[offset + 8 .. offset + 12]);
      var body := offset + HEADER_SIZE;
      if body + keyLen + valueLen > |log| then Err(UnexpectedEof)
      else Ok(Record(log[body .. body + keyLen],
                     log[body + keyLen .. body + keyLen + valueLen],
                     FromBE32(log[offset .. offset + 4]),
                     log[offset + 12] == 1))
  }

  /** Decoding looks only at the bytes of the record: whatever is appended
      after a record, it decodes the same (the log only grows). */
  lemma {:induction false} DecodeStableUnderAppend(log: seq<byte>, more: seq<byte>, offset: int)
    requires DecodeAt(log, offset).Ok?
    ensures DecodeAt(log + more, offset) == DecodeAt(log, offset)
  {
    var all := log + more;
    assert all[offset .. offset + 4] == log[offset .. offset + 4];
    assert all[offset + 4 .. offset + 8] == log[offset + 4 .. offset + 8];
    assert all[offset + 8 .. offset + 12] == log[offset + 8 .. offset + 12];
    var r := DecodeAt(log, offset).value;
    var body := offset + HEADER_SIZE;
    var end := body + |r.key| + |r.value|;
    assert all[body .. body + |r.key|] == log[body .. body + |r.key|];
    assert all[body + |r.key| .. end] == log[body + |r.key| .. end];
  }

  /** What decoding a record written by main.go gives back, wherever it sits
      in the log: the header's first slot holds the value length, read as the
      timestamp; the key and value length slots are zero, so the key and the
      value come back empty; only the tombstone flag survives. */
  lemma {:induction false} DecodeAsWritten(before: seq<byte>, r: Record, after: seq<byte>)
    requires Encodable(r)
    ensures DecodeAt(before + EncodeAsWritten(r) + after, |before|)
            == Ok(Record([], [], |r.value|, r.tombstone))
  {
    var o := |before|;
    var buf := EncodeAsWritten(r);
    var log := before + buf + after;
    assert log[o .. o + 4] == BE32(|r.value|);
    assert log[o + 4 .. o + 8] == Zeros(4);
    assert log[o + 8 .. o + 12] == Zeros(4);
    FromBE32ZeroIff(Zeros(4));
    assert log[o + 12] == TombstoneByte(r.tombstone);
    FromBE32OfBE32(|r.value|);
  }

  /** As written, the round trip holds exactly for the records that carry
      nothing: an empty key, an empty value and timestamp 0. Every record
      `Put` writes has a non-empty key, so none of them reads back intact. */
  lemma {:induction false} AsWrittenRoundTripIff(before: seq<byte>, r: Record, after: seq<byte>)
    requires Encodable(r)
    ensures DecodeAt(before + EncodeAsWritten(r) + after, |before|) == Ok(r)
            <==> r.key == [] && r.value == [] && r.timestamp == 0
  {
    DecodeAsWritten(before, r, after);
  }

  /** `Put("a", "1")` at time 7: the log holds `00 00 00 01`, eight zeros,
      `00`, `61`, `31`, and reading it back gives timestamp 1 and no key. */
  lemma PutOfAOneDoesNotRoundTrip()
    ensures EncodeAsWritten(Record([0x61], [0x31], 7, false))
            == [0, 0, 0, 1, 0, 0, 0, 0, 0, 0, 0, 0, 0, 0x61, 0x31]
    ensures DecodeAt(EncodeAsWritten(Record([0x61], [0x31], 7, false)), 0)
            == Ok(Record([], [], 1, false))
  {
    DecodeAsWritten([], Record([0x61], [0x31], 7, false), []);
  }

  /** The slices of a log that holds `EncodeIntended(r)` at `|before|`. */
  lemma {:induction false} IntendedSlices(before: seq<byte>, r: Record, after: seq<byte>)
    requires Encodable(r)
    ensures var log, o := before + EncodeIntended(r) + after, |before|;
      && log[o .. o + 4] == BE32(r.timestamp)
      && log[o + 4 .. o + 8] == BE32(|r.key|)
      && log[o + 8 .. o + 12] == BE32(|r.value|)
      && log[o + 12] == TombstoneByte(r.tombstone)
      && log[o + HEADER_SIZE .. o + HEADER_SIZE + |r.key|] == r.key
      && log[o + HEADER_SIZE + |r.key| .. o + HEADER_SIZE + |r.key| + |r.value|] == r.value
  {
    var buf := EncodeIntended(r);
    var log, o := before + buf + after, |before|;
    var header := BE32(r.timestamp) + BE32(|r.key|) + BE32(|r.value|) + [TombstoneByte(r.tombstone)];
    assert buf == header + r.key + r.value;
    assert forall i :: 0 <= i < |buf| ==> log[o + i] == buf[i];
    assert buf[..4] == BE32(r.timestamp);
    assert buf[4..8] == BE32(|r.key|);
    assert buf[8..12] == BE32(|r.value|);
    assert buf[HEADER_SIZE .. HEADER_SIZE + |r.key|] == r.key;
    assert buf[HEADER_SIZE + |r.key| ..] == r.value;
    assert log[o .. o + |buf|] == buf;
  }

  /** With each header field in its own slot the record reads back intact,
      wherever it sits in the log. */
  lemma {:induction false} IntendedRoundTrip(before: seq<byte>, r: Record, after: seq<byte>)
    requires Encodable(r)
    ensures DecodeAt(before + EncodeIntended(r) + after, |before|) == Ok(r)
  {
    IntendedSlices(before, r, after);
    FromBE32OfBE32(r.timestamp);
    FromBE32OfBE32(|r.key|);
    FromBE32OfBE32(|r.value|);
  }

  /** Copies `src` into `buf` from `start` on (Go's `copy` into a sub-slice). */
  method CopyInto(buf: array<byte>, start: nat, src: seq<byte>)
    requires start + |src| <= buf.Length
    modifies buf
    ensures buf[..] == old(buf[..start]) + src + old(buf[start + |src|..])
  {
    var i := 0;
    while i < |src|
      invariant 0 <= i <= |src|
      invariant buf[..] == old(buf[..start]) + src[..i] + old(buf[start + i..])
    {
      buf[start + i] := src[i];
      assert src[..i + 1] == src[..i] + [src[i]];
      i := i + 1;
    }
  }

  /** `binary.BigEndian.PutUint32(buf[:4], n)`. */
  method PutUint32(buf: array<byte>, n: u32)
    requires 4 <= buf.Length
    modifies buf
    ensures buf[..] == BE32(n) + old(buf[4..])
  {
    buf[0] := n / 0x100_0000;
    buf[1] := (n / 0x1_0000) % 0x100;
    buf[2] := (n / 0x100) % 0x100;
    buf[3] := n % 0x100;
  }

  /** The buffer-building half of `writeRecord`: a zeroed buffer of the full
      record size, the three header writes into its first four bytes, the
      tombstone byte, then the key and the value copied behind the header. */
  method FillBuffer(r: Record) returns (buf: seq<byte>)
    requires Encodable(r)
    ensures |buf| == HEADER_SIZE + |r.key| + |r.value|
    ensures buf[..4] == BE32(|r.value|) && FromBE32(buf[..4]) == |r.value|
    ensures buf[4..12] == Zeros(8)
    ensures buf[12] == 1 <==> r.tombstone
    ensures buf[12] == 0 <==> !r.tombstone
    ensures buf[HEADER_SIZE .. HEADER_SIZE + |r.key|] == r.key
    ensures buf[HEADER_SIZE + |r.key| ..] == r.value
    ensures buf == EncodeAsWritten(r)
  {
    var a := new byte[HEADER_SIZE + |r.key| + |r.value|](_ => 0);
    PutUint32(a, r.timestamp);
    PutUint32(a, |r.key|);
    PutUint32(a, |r.value|);
    assert a[..] == BE32(|r.value|) + Zeros(|r.key| + |r.value| + 9);
    a[12] := if r.tombstone then 1 else 0;
    assert a[..HEADER_SIZE] == BE32(|r.value|) + Zeros(8) + [TombstoneByte(r.tombstone)];
    CopyInto(a, HEADER_SIZE, r.key);
    CopyInto(a, HEADER_SIZE + |r.key|, r.value);
    buf := a[..];
    assert buf == EncodeAsWritten(r);
    FromBE32OfBE32(|r.value|);
  }
}

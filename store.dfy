/** The append-only log and its in-memory index (main.go's `Store`).
    The data file is the byte sequence `log`, which only grows; `index` maps
    each key written since `Open` to the offset of its latest record. */
module Bitcask {
  import opened Bytes
  import opened Codec

  /** Outcome of `Put`, which returns only a Go `error`. */
  datatype Outcome = Pass | Fail(error: Error)

  /** One successful `Put` as the index sees it: the key and where its
      record starts. */
  datatype Entry = Entry(key: seq<byte>, offset: int)

  /** The index that a sequence of successful `Put`s leaves behind, oldest
      first: a key is present exactly when some `Put` wrote it. */
  function LatestOffsets(history: seq<Entry>): (m: map<seq<byte>, int>)
    ensures forall k :: k in m <==> exists i :: 0 <= i < |history| && history[i].key == k
  {
    if history == [] then map[]
    else
      var last := history[|history| - 1];
      LatestOffsets(history[..|history| - 1])[last.key := last.offset]
  }

  /** Recording one more `Put` sets its key to its offset in the index. */
  lemma {:induction false} LatestOffsetsAppend(history: seq<Entry>, e: Entry)
    ensures LatestOffsets(history + [e]) == LatestOffsets(history)[e.key := e.offset]
  {
    assert (history + [e])[..|history|] == history;
  }

  /** Last write wins: a key maps to the offset of the latest `Put` of it,
      whatever `Put`s of other keys came after. */
  lemma {:induction false} LatestOffsetIsLastWrite(history: seq<Entry>, i: nat)
    requires i < |history|
    requires forall j :: i < j < |history| ==> history[j].key != history[i].key
    ensures history[i].key in LatestOffsets(history)
    ensures LatestOffsets(history)[history[i].key] == history[i].offset
  {
    if i < |history| - 1 {
      var prefix := history[..|history| - 1];
      assert forall j :: i < j < |prefix| ==> prefix[j] == history[j];
      LatestOffsetIsLastWrite(prefix, i);
    }
  }

  /** At `offset` in `log` lies a whole record that `Put` wrote for `key`:
      the header, the key bytes right after it and as many value bytes as
      the header's first slot says. As main.go writes it, the key-length,
      value-length and tombstone bytes of such a record are all zero. */
  ghost predicate PutRecordAt(log: seq<byte>, offset: int, key: seq<byte>) {
    && 0 <= offset
    && offset + HEADER_SIZE <= |log|
    && log[offset + 4 .. offset + HEADER_SIZE] == Zeros(9)
    && offset + HEADER_SIZE + |key| + FromBE32(log[offset .. offset + 4]) <= |log|
    && log[offset + HEADER_SIZE .. offset + HEADER_SIZE + |key|] == key
  }

  /** Every indexed offset is the start of a record written for its key. */
  ghost predicate IndexInvariant(log: seq<byte>, index: map<seq<byte>, int>) {
    forall key :: key in index ==> PutRecordAt(log, index[key], key)
  }

  /** The record `Put` appends for `key` is a whole record for `key`. */
  lemma {:induction false} AppendedPutRecord(log: seq<byte>, key: seq<byte>, value: seq<byte>, timestamp: u32)
    requires Encodable(Record(key, value, timestamp, false))
    ensures PutRecordAt(log + EncodeAsWritten(Record(key, value, timestamp, false)), |log|, key)
  {
    var buf := EncodeAsWritten(Record(key, value, timestamp, false));
    var log' := log + buf;
    var o := |log|;
    assert buf[..4] == BE32(|value|);
    assert log'[o .. o + 4] == buf[..4];
    FromBE32OfBE32(|value|);
    assert buf[4 .. HEADER_SIZE] == Zeros(9);
    assert log'[o + 4 .. o + HEADER_SIZE] == buf[4 .. HEADER_SIZE];
    assert buf[HEADER_SIZE .. HEADER_SIZE + |key|] == key;
    assert log'[o + HEADER_SIZE .. o + HEADER_SIZE + |key|] == buf[HEADER_SIZE .. HEADER_SIZE + |key|];
  }

  /** A whole record stays whole when bytes are appended after it. */
  lemma {:induction false} PutRecordKept(log: seq<byte>, more: seq<byte>, offset: int, key: seq<byte>)
    requires PutRecordAt(log, offset, key)
    ensures PutRecordAt(log + more, offset, key)
  {
    var log' := log + more;
    var o := offset;
    assert log'[o .. o + 4] == log[o .. o + 4];
    assert log'[o + 4 .. o + HEADER_SIZE] == log[o + 4 .. o + HEADER_SIZE];
    assert log'[o + HEADER_SIZE .. o + HEADER_SIZE + |key|] == log[o + HEADER_SIZE .. o + HEADER_SIZE + |key|];
  }

  /** Appending bytes to the file keeps every index entry valid. */
  lemma {:induction false} AppendKeepsIndex(log: seq<byte>, more: seq<byte>, index: map<seq<byte>, int>)
    requires IndexInvariant(log, index)
    ensures IndexInvariant(log + more, index)
  {
    forall k | k in index
      ensures PutRecordAt(log + more, index[k], k)
    {
      PutRecordKept(log, more, index[k], k);
    }
  }

  /** Pointing `key` at a whole record for `key` keeps the invariant. */
  lemma {:induction false} PointKeepsIndex(log: seq<byte>, index: map<seq<byte>, int>, key: seq<byte>, offset: int)
    requires IndexInvariant(log, index)
    requires PutRecordAt(log, offset, key)
    ensures IndexInvariant(log, index[key := offset])
  {
    var index' := index[key := offset];
    forall k | k in index'
      ensures PutRecordAt(log, index'[k], k)
    {
      if k != key {
        assert index'[k] == index[k];
      }
    }
  }

  /** Appending `Put`'s record for `key` and pointing `key` at it keeps the
      invariant: earlier records are untouched by the append, and the new
      offset holds the new record. */
  lemma {:induction false} PutPreservesIndex(log: seq<byte>, index: map<seq<byte>, int>,
                                             key: seq<byte>, value: seq<byte>, timestamp: u32)
    requires Encodable(Record(key, value, timestamp, false))
    requires IndexInvariant(log, index)
    ensures IndexInvariant(log + EncodeAsWritten(Record(key, value, timestamp, false)),
                           index[key := |log|])
  {
    var log' := log + EncodeAsWritten(Record(key, value, timestamp, false));
    AppendKeepsIndex(log, EncodeAsWritten(Record(key, value, timestamp, false)), index);
    AppendedPutRecord(log, key, value, timestamp);
    PointKeepsIndex(log', index, key, |log|);
  }

  /** Reading the record an index entry points at succeeds, but, as main.go
      writes records, it gives back an empty key and an empty value, with
      the value's length in place of the timestamp. */
  lemma {:induction false} IndexedRecordDecodes(log: seq<byte>, index: map<seq<byte>, int>, key: seq<byte>)
    requires IndexInvariant(log, index)
    requires key in index
    ensures DecodeAt(log, index[key]).Ok?
    ensures DecodeAt(log, index[key]).value.key == []
    ensures DecodeAt(log, index[key]).value.value == []
    ensures !DecodeAt(log, index[key]).value.tombstone
  {
    var o := index[key];
    assert PutRecordAt(log, o, key);
    var zeros := log[o + 4 .. o + HEADER_SIZE];
    assert zeros == Zeros(9);
    assert log[o + 4 .. o + 8] == zeros[..4];
    assert log[o + 8 .. o + 12] == zeros[4..8];
    assert zeros[..4] == Zeros(4) && zeros[4..8] == Zeros(4);
    assert log[o + 12] == zeros[8] == 0;
    FromBE32ZeroIff(Zeros(4));
  }

  class Store {
    const filename: string
    var log: seq<byte>
    var index: map<seq<byte>, int>
    /** The successful `Put`s since `Open`, oldest first. */
    ghost var history: seq<Entry>

    ghost predicate Valid()
      reads this
    {
      && index == LatestOffsets(history)
      && IndexInvariant(log, index)
    }

    /** `Open`: the store sees the file's current bytes and starts with an
        empty index, whatever the file holds. */
    constructor Open(filename: string, contents: seq<byte>)
      ensures Valid()
      ensures this.filename == filename
      ensures log == contents
      ensures index == map[] && history == []
    {
      this.filename := filename;
      log := contents;
      index := map[];
      history := [];
    }

    /** One `s.file.Read` into a fresh buffer of `n` bytes at the cursor
        `pos`: an empty buffer reads nothing and succeeds wherever the cursor
        is; otherwise the read succeeds only when the file has all `n` bytes
        there. */
    method ReadFull(pos: nat, n: nat) returns (r: Result<seq<byte>>)
      ensures n == 0 ==> r == Ok([])
      ensures pos + n <= |log| ==> r == Ok(log[pos .. pos + n])
      ensures 0 < n && pos + n > |log| ==> r == Err(UnexpectedEof)
    {
      if n == 0 {
        if pos <= |log| {
          assert log[pos .. pos] == [];
        }
        return Ok([]);
      }
      if pos + n > |log| {
        return Err(UnexpectedEof);
      }
      var buf := new byte[n](_ => 0);
      var i := 0;
      while i < n
        invariant 0 <= i <= n
        invariant buf[..i] == log[pos .. pos + i]
      {
        buf[i] := log[pos + i];
        i := i + 1;
      }
      assert buf[..] == buf[..n];
      r := Ok(buf[..]);
    }

    /** `readRecord`: seek to `offset`, then read the timestamp, the key
        length, the value length and the tombstone byte, then that many key
        bytes and value bytes, each read advancing the cursor. */
    method ReadRecord(offset: int) returns (r: Result<Record>)
      ensures r == DecodeAt(log, offset)
      ensures r.Ok? ==> r.value.timestamp == FromBE32(log[offset .. offset + 4])
      ensures r.Ok? ==> (r.value.tombstone <==> log[offset + 12] == 1)
    {
      if offset < 0 {
        return Err(InvalidOffset);
      }
      var pos: nat := offset;

      var timestampBuf := ReadFull(pos, 4);
      if timestampBuf.Err? {
        return Err(timestampBuf.error);
      }
      pos := pos + 4;
      var timestamp := FromBE32(timestampBuf.value);

      var keyLenBuf := ReadFull(pos, 4);
      if keyLenBuf.Err? {
        return Err(keyLenBuf.error);
      }
      pos := pos + 4;
      var keyLen := FromBE32(keyLenBuf.value);

      var valueLenBuf := ReadFull(pos, 4);
      if valueLenBuf.Err? {
        return Err(valueLenBuf.error);
      }
      pos := pos + 4;
      var valueLen := FromBE32(valueLenBuf.value);

      var tombstoneBuf := ReadFull(pos, 1);
      if tombstoneBuf.Err? {
        return Err(tombstoneBuf.error);
      }
      pos := pos + 1;
      var tombstone := tombstoneBuf.value[0] == 1;

      var key := ReadFull(pos, keyLen);
      if key.Err? {
        return Err(key.error);
      }
      pos := pos + keyLen;

      var value := ReadFull(pos, valueLen);
      if value.Err? {
        return Err(value.error);
      }
      r := Ok(Record(key.value, value.value, timestamp, tombstone));
    }

    /** `writeRecord`: build the record's buffer and append it at the end of
        the file, returning where it starts. Bytes already in the file are
        never changed. */
    method WriteRecord(record: Record) returns (offset: nat)
      requires Valid()
      requires Encodable(record)
      modifies this`log
      ensures Valid()
      ensures offset == |old(log)|
      ensures log == old(log) + EncodeAsWritten(record)
      ensures log[..offset] == old(log)
      ensures DecodeAt(log, offset) == Ok(Record([], [], |record.value|, record.tombstone))
    {
      var buf := FillBuffer(record);
      offset := |log|;
      AppendKeepsIndex(log, buf, index);
      log := log + buf;
      DecodeAsWritten(old(log), record, []);
      assert log == old(log) + EncodeAsWritten(record) + [];
    }

    /** `Put`: reject an empty key; otherwise append a live record stamped
        with `now` cut to 32 bits and point the key at it. Every other index
        entry stays as it was. */
    method Put(key: seq<byte>, value: seq<byte>, now: int) returns (out: Outcome)
      requires Valid()
      requires |key| < TWO_TO_THE_32 && |value| < TWO_TO_THE_32
      modifies this
      ensures Valid()
      ensures |key| == 0 ==> out == Fail(EmptyKey) && log == old(log) && index == old(index) && history == old(history)
      ensures |key| > 0 ==> out == Pass
      ensures |key| > 0 ==> log == old(log) + EncodeAsWritten(Record(key, value, now % TWO_TO_THE_32, false))
      ensures |key| > 0 ==> index == old(index)[key := |old(log)|]
      ensures |key| > 0 ==> history == old(history) + [Entry(key, |old(log)|)]
      ensures |key| > 0 ==> DecodeAt(log, index[key]) == Ok(Record([], [], |value|, false))
    {
      if |key| == 0 {
        return Fail(EmptyKey);
      }
      var record := Record(key, value, now % TWO_TO_THE_32, false);
      var offset := WriteRecord(record);
      PutPreservesIndex(old(log), index, key, value, record.timestamp);
      LatestOffsetsAppend(history, Entry(key, offset));
      index := index[key := offset];
      history := history + [Entry(key, offset)];
      out := Pass;
    }
  }
}

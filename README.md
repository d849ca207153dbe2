# Bitcask prototype: record codec, append-only log and index

This project models the core of a small log-structured ("Bitcask") key-value
store written in Go (`main.go`). It has three parts:

- **Record codec** (`codec.dfy`, module `Codec`). A record is a 13-byte header
  followed by the key bytes and the value bytes. The header holds a big-endian
  timestamp, key length and value length, then one tombstone byte. The
  encoder is modelled **as the Go code writes it**. `writeRecord` writes the
  timestamp, the key length and the value length all into `buf[:4]`. Only the
  value length survives there, and bytes 4..11 stay zero. The decoder
  (`readRecord`) reads each field at its own offset, so a freshly written
  record reads back with the value length as its timestamp, an empty key and
  an empty value. Only the tombstone flag is certain to survive the round
  trip.
- **Big-endian integers** (`bytes.dfy`, module `Bytes`). These are Go's
  `binary.BigEndian.PutUint32` and `Uint32` over bytes. The two are proved to
  be inverse in both directions.
- **Store** (`store.dfy`, module `Bitcask`). The class `Store` holds the data
  file as a byte sequence `log` that only grows. It also holds the index
  `index`, a map from key to the offset of the key's latest record. `Open`
  takes the file's current bytes and always starts with an empty index.
  `WriteRecord` appends a record and returns where it starts. `Put` rejects
  an empty key, appends a live record and points the key at it.
  `ReadRecord` decodes the record at an offset with a cursor that moves
  forward read by read.

The store keeps an invariant, `Valid()`, made of two parts:
- The index equals `LatestOffsets` of the ghost sequence of successful
  `Put`s. So every key maps to its latest write (last write wins).
- Every indexed offset starts a whole record that was written for that key.
  The key bytes sit right after the header. As the code writes records, the
  header's key-length, value-length and tombstone bytes are zero.

What the model keeps from the code, where a reader might expect otherwise:
- Each header field has its own slot in the layout that the decoder reads:
  timestamp at bytes 0..3, key length at 4..7, value length at 8..11. The
  encoder instead writes all three into bytes 0..3. The model keeps the
  encoder as written. The layout the decoder expects is given beside it as
  `EncodeIntended`, with its round trip proved (see Findings).
- `Open` does not rebuild the index by reading the file back. It starts with
  an empty index, so records already in the file are not reachable through
  the index. The model does the same.
- `main.go` has no `Get`, no `Delete`, no compaction and no recovery, so the
  model has none either.
- `readRecord` returns whatever error a read gives and does not tell a
  truncated record apart from a damaged header. The model has one error,
  `UnexpectedEof`, for every read that runs out of bytes.

## Model

| member | source | states |
|---|---|---|
| `Bytes.BE32` | main.go:101-105 | `PutUint32` writes exactly four bytes, most significant first; `FromBE32` is its inverse in both directions (`FromBE32OfBE32`, `BE32OfFromBE32`) |
| `Bytes.FromBE32` | main.go:57-71 | `Uint32` of four bytes, most significant first; it has no contract of its own: its meaning is stated by the two inverse lemmas and `FromBE32ZeroIff` |
| `Bytes.FromBE32OfBE32` | main.go:101-105 | `Uint32` of the four bytes `PutUint32` writes for `n` gives back `n` |
| `Bytes.BE32OfFromBE32` | main.go:57-71 | `PutUint32` of the integer `Uint32` read from any four bytes gives back those bytes, so the header encoding is a bijection |
| `Bytes.FromBE32ZeroIff` | main.go:64-71 | a length slot reads as 0 exactly when its four bytes are all zero, as `make` leaves the slots `writeRecord` does not write |
| `Codec.TombstoneByte` | main.go:107-111 | the tombstone byte is 1 exactly when the tombstone flag is set, and 0 otherwise |
| `Codec.EncodeAsWritten` | main.go:97-114 | the bytes written for a record are exactly `HEADER_SIZE + len(key) + len(value)` long |
| `Codec.PutUint32` | main.go:101-105 | one `PutUint32(buf[:4], n)` sets the first four bytes to big-endian `n` and leaves every other byte of the buffer alone |
| `Codec.CopyInto` | main.go:113-114 | `copy` into a sub-slice puts the source bytes at the start position and leaves the bytes before and after unchanged |
| `Codec.FillBuffer` | main.go:98-114 | the buffer is `13 + len(key) + len(value)` bytes; bytes 0..3 are the big-endian value length (the last of the three overlapping writes wins); bytes 4..11 are zero; byte 12 is 1 iff tombstone and 0 iff not; the key occupies `[13, 13+len(key))` and the value everything after it |
| `Codec.DecodeAt` | main.go:44-95 | a successful decode starts at a non-negative offset; the decoded key is exactly as long as the header's key-length field and the decoded value exactly as long as its value-length field, and both lie inside the file |
| `Codec.DecodeStableUnderAppend` | main.go:44-95 | a record that decodes keeps decoding to the same record whatever bytes are appended to the file later |
| `Codec.DecodeAsWritten` | main.go:101-105 | reading back a record as `writeRecord` wrote it, anywhere in the file, gives timestamp = value length, an empty key, an empty value and the original tombstone flag |
| `Codec.AsWrittenRoundTripIff` | main.go:101-105 | as written, decoding an encoded record gives the record back if and only if its key and value are empty and its timestamp is 0 |
| `Codec.PutOfAOneDoesNotRoundTrip` | main.go:101-105 | the concrete bytes written for key "a", value "1" and the record they read back as: timestamp 1 and no key or value |
| `Codec.EncodeIntended` | main.go:101-105 | the corrected encoder (each header field in its own slot) writes `13 + len(key) + len(value)` bytes |
| `Codec.IntendedRoundTrip` | main.go:44-95 | the decoder gives back every record written with the corrected encoder, wherever it sits in the file |
| `Bitcask.LatestOffsets` | main.go:147 | after a sequence of `Put`s a key is in the index exactly when some `Put` wrote it |
| `Bitcask.LatestOffsetIsLastWrite` | main.go:147 | a key maps to the offset of its latest `Put`, whatever `Put`s of other keys follow (last write wins) |
| `Bitcask.AppendedPutRecord` | main.go:136-147 | the record `Put` appends at the old end of the file is a whole record for its key: header, then the key bytes, then as many value bytes as the header's first slot says |
| `Bitcask.PutRecordKept` | main.go:116-125 | a whole record stays whole when bytes are appended after it, since appending never rewrites earlier bytes |
| `Bitcask.AppendKeepsIndex` | main.go:116-125 | appending any bytes to the file keeps every index entry pointing at a whole record for its key |
| `Bitcask.PointKeepsIndex` | main.go:147 | pointing a key at a whole record written for that key keeps the index invariant |
| `Bitcask.LatestOffsetsAppend` | main.go:147 | recording one more `Put` sets exactly its key to its offset in the index built from the history |
| `Bitcask.PutPreservesIndex` | main.go:142-147 | appending `Put`'s record and pointing the key at its start offset keeps every index entry pointing at a whole record written for that entry's key |
| `Bitcask.IndexedRecordDecodes` | main.go:142-147 | the record an index entry points at decodes without error, but with an empty key, an empty value and no tombstone |
| `Bitcask.Store.Open` | main.go:28-42 | the store sees the file's bytes unchanged and starts with an empty index and an empty history, whatever the file holds |
| `Bitcask.Store.ReadFull` | main.go:53-56 | a read of zero bytes succeeds with nothing read wherever the cursor is; a read of `n > 0` bytes returns exactly the file's bytes at the cursor, and fails when fewer than `n` remain |
| `Bitcask.Store.ReadRecord` | main.go:44-95 | the cursor-by-cursor reads return exactly `DecodeAt(log, offset)`: timestamp = big-endian bytes `o..o+4`, key length from `o+4..o+8`, value length from `o+8..o+12`, tombstone iff byte `o+12` is 1 (any other byte means false), then the key bytes and the value bytes; a negative offset or too few bytes is an error |
| `Bitcask.Store.WriteRecord` | main.go:97-126 | keeps the store invariant, so every index entry still points at a whole record for its key; returns the file length before the append; the new file is the old one followed by the record's bytes, so no earlier byte changes; the record at the returned offset decodes with timestamp = value length, empty key and value, and the original tombstone |
| `Bitcask.Store.Put` | main.go:128-149 | an empty key fails with `EmptyKey` and changes neither the file nor the index; otherwise a live record stamped with the time cut to 32 bits is appended, the key maps to its start offset, every other index entry is unchanged, and the store invariant is kept |

## Left out

- The `sync.RWMutex` lock in `Put` is left out, because the model is single-threaded.
- `time.Now().Unix()` is a parameter `now` of `Put`. Its `uint32` conversion is modelled as `now % 2^32`.
- File handling is left out: `os.OpenFile`, `Seek`, `Read` and `Write`, with their I/O error paths. The file is an in-memory byte sequence, and `Open` is given the file's current bytes. `Open` therefore cannot fail, and neither can the append in `WriteRecord`.
- `Bitcask.Store.ReadFull`: a non-empty read that finds fewer bytes than it asks for is an error. Go's short-read behaviour (part of the buffer filled, no error) is not modelled.
- `Bitcask.Store.ReadRecord`, `Codec.DecodeAt`: these inherit the short-read simplification. In Go, a record cut off inside its key (or value) can still decode without error, with the missing bytes left as zeros, when some bytes remain for that read and every later read asks for zero bytes. The model returns `UnexpectedEof` in that case.
- `Bitcask.Store.Put`, `Bitcask.Store.WriteRecord`, `Codec.FillBuffer`: key and value lengths must be below 2^32. The `uint32` truncation of longer lengths is not modelled.
- `fmt.Errorf` message wrapping is replaced by the `Error` datatype.
- `Get`, `Delete`, compaction and index recovery are left out, because they are not part of `main.go`.

## Findings

| source | as written | input that shows it | evidently intended | confidence | as-written member | corrected member |
|---|---|---|---|---|---|---|
| main.go:101-105 | the timestamp, the key length and the value length are all written to `buf[:4]`; only the value length survives, and bytes 4..11 stay zero | `Put("a", "1")` writes `00 00 00 01`, eight zero bytes, `00 61 31`; `readRecord` at its offset gives timestamp 1, an empty key and an empty value | timestamp at bytes 0..3, key length at 4..7, value length at 8..11, so that `readRecord` gives the record back | high (not executed) | `Codec.AsWrittenRoundTripIff` | `Codec.IntendedRoundTrip` |

The store (`Bitcask.Store.WriteRecord` and `Bitcask.Store.Put`) keeps the
as-written encoder, because it models what `main.go` stores. `Codec.EncodeIntended`
is the corrected layout, and `Codec.IntendedRoundTrip` proves that the decoder
reads it back.

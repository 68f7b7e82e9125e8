# logstore in Dafny

A model of the core of `logstore`, a minimal append-only log storage engine in Go.
The store owns a fixed list of partitions, each an append-mode file. `Append`
hashes a key with 32-bit FNV-1a to pick a partition, frames the payload and appends
the frame to that partition's file. `Read` copies bytes of a partition's file into a
caller's buffer, and `UnMarshal` splits a byte buffer back into frames.

A frame is an 8-byte big-endian length, a 4-byte big-endian CRC-32 checksum of the
payload, then the payload. The length counts the whole frame, its own 12-byte header
included: it is `12 + |payload|`.

Modules:

- `Bytes`: byte and fixed-width unsigned types, big-endian encoding and decoding, and
  the round-trip lemmas in both directions.
- `Errors`: the package's own error values, `io.EOF` from Go's library, and the Go
  runtime panics its code can reach
  (index out of range, slice bounds out of range, division by zero). Each is a
  `Fail` result here.
- `Hashing`: the checksum and the FNV-1a hash, written as Go's byte-at-a-time loops.
  The checksum uses the table that `crc32.MakeTable(0x04C11DB7)` builds.
- `Frame`: `msgify` (`Encode`), `parse` (`Parse`), the loop of `UnMarshal`
  (`DecodeFrom`, `Decode`) and the lemmas about them.
- `Store`: a `File` class (bytes and offset of an open descriptor), the
  `Partition` value, routing, and the `LogStore` class with `New`, `Setup`,
  `Append`, `Partition`, `Read` and the imperative `UnMarshal` loop.

Go slices are modelled by two values: the bytes reachable up to the slice's capacity
(`b`), and its length (`blen`). In `parse`, the slice expressions `payload[:8]`,
`payload[8:12]` and `payload[12:ln]` are bounded by the capacity. In the loop,
`b[s:]` is bounded by the length. `DecodeIgnoresCapacity` proves that the outcome of
`UnMarshal` never depends on the bytes past the length.

The code counts the 12-byte header in the length field, never compares the checksum,
routes modulo `numParts - 1`, and guards partitions with `idx > numParts`. The
consequences are proved:
- `RouteSkipsLastPartition`: the last partition is never chosen.
- `RouteSinglePartition`: a single partition divides by zero.
- `Store.LogStore.Partition`: `idx == numParts` passes the guard and then indexes
  out of range.
- `ChecksumNotVerified`: decoding accepts any checksum.
- `EmptyPayloadRejected`: the frame of an empty payload cannot be decoded alone.

## Model

| member | source | states |
|---|---|---|
| `Bytes.BigEndian` | logstore.go:148-149 | the encoding of a fixed-width field has exactly `width` bytes |
| `Bytes.FromBigEndian` | logstore.go:122-123 | a value read from `k` big-endian bytes is below 256^k, so 8 bytes fit a uint64 and 4 fit a uint32 |
| `Bytes.FromBigEndianOfBigEndian` | logstore.go:148 | reading back a written field gives the value modulo 256^width (the uint64 conversion's truncation) |
| `Bytes.BigEndianOfFromBigEndian` | logstore.go:122-123 | writing back a value read from bytes gives the same bytes |
| `Bytes.BigEndianRoundTrip` | logstore.go:148-149 | a value that fits the field reads back unchanged |
| `Frame.Encode` | logstore.go:145-151 | the frame of a payload is 12 + \|payload\| bytes long |
| `Frame.EncodeLayout` | logstore.go:145-151 | bytes [0,8) read back as (12 + \|payload\|) mod 2^64, bytes [8,12) as the payload's checksum, bytes [12,..) are the payload |
| `Frame.DecodeFrom` | logstore.go:104-118 | the loop from a cursor fails only with a slice-bounds panic, and on success collects at least one message and at most one per 12 bytes left |
| `Frame.Decode` | logstore.go:98-118 | fewer than 13 bytes is ErrShortPayload; from 13 bytes on, the only failure is a slice-bounds panic; success yields at least one message and at most one per 12 bytes |
| `Frame.Parse` | logstore.go:121-130 | a successful parse consumes between 12 bytes and the slice's capacity; every failure is a slice-bounds panic |
| `Frame.ParseSound` | logstore.go:121-130 | the returned message is well-formed, its length is the number of bytes consumed, and re-encoding it gives exactly those bytes, checksum included |
| `Frame.ParseFrame` | logstore.go:121-130 | parse reads back any well-formed frame whatever bytes follow it, consuming exactly its declared length |
| `Frame.ParsePrefix` | logstore.go:122-125 | parse only looks at the bytes of the frame it returns: a shorter slice holding that frame gives the same result |
| `Frame.FramesLength` | logstore.go:125-129 | the frames of well-formed messages take as many bytes as their declared lengths add up to |
| `Frame.FramesAppend` | logstore.go:84 | appending one more frame extends the byte string of frames by that frame |
| `Frame.EncodeAllFrames` | logstore.go:145-151 | payloads framed one after another are the frames of their msgify messages, all well-formed |
| `Frame.DecodeFromFrames` | logstore.go:104-118 | from any cursor, a run of well-formed frames ending at the slice's length decodes to exactly those messages in order |
| `Frame.DecodeFromSound` | logstore.go:104-118 | whatever the loop decodes from a cursor is a non-empty run of well-formed frames filling the slice from the cursor to its length |
| `Frame.DecodeFromIgnoresCapacity` | logstore.go:104-125 | from any cursor, the loop's result is the same when the slice's capacity is cut down to its length |
| `Frame.DecodeCharacterization` | logstore.go:98-130 | UnMarshal returns `ms` if and only if the slice has at least 13 bytes and is exactly the concatenation of the frames of `ms`, all well-formed and at least one |
| `Frame.DecodeIgnoresCapacity` | logstore.go:98-125 | bytes between the slice's length and its capacity never change UnMarshal's outcome |
| `Frame.DecodeCoversBuffer` | logstore.go:104-118 | after a successful UnMarshal the declared lengths add up to the slice's length and each is at least 12: the cursor ends exactly at the end |
| `Frame.RoundTrip` | logstore.go:98-151 | UnMarshal of msgify(p), for non-empty p, is one message with length 12 + \|p\|, the checksum of p and payload p |
| `Frame.EmptyPayloadRejected` | logstore.go:98-103 | the 12-byte frame of an empty payload is refused with ErrShortPayload |
| `Frame.ChecksumNotVerified` | logstore.go:123-128 | a frame carrying any checksum value decodes, so a wrong checksum is never detected |
| `Frame.ConcatRoundTrip` | logstore.go:104-118 | frames of p1..pn back to back, at least 13 bytes in all, decode to n messages with payloads p1..pn in order, whose lengths add up to the bytes given |
| `Frame.DecodeAfterAppend` | logstore.go:80-85 | a file of whole frames plus one appended msgify frame is still whole frames, and decodes to the old messages followed by the new one |
| `Frame.PrependTwice` | logstore.go:111 | collecting one more message into the loop's list is the same as prepending the list once more |
| `Store.ReadSpan` | logstore.go:139-141 | one read delivers nothing when asked for nothing, EOF at or past the end of the file, otherwise a non-empty run of the file's bytes from the offset, no longer than asked and at most 2^30 bytes, and short only at the end of the file or at that 2^30-byte cap of a single read |
| `Store.ReaderAdvance` | logstore.go:140-141 | the read moves the file offset by nothing exactly when nothing is asked for or the offset is at or past the end, never past the end, at least past the bytes delivered, and exactly past them when the buffer is read into directly |
| `Store.File.Write` | logstore.go:84 | the frame lands at the end of the file (append mode), the offset is left at the end, and the byte count is returned |
| `Store.File.Seek` | logstore.go:139 | seeking to a non-negative offset sets it, even past the end; a negative one is refused and leaves the offset where it was |
| `Store.File.ReadBuffered` | logstore.go:140-141 | the buffer's first n bytes are the bytes the read delivers and the rest are untouched; the file's bytes are unchanged |
| `Hashing.Checksum` | logstore.go:154-157 | the checksum is a 32-bit value, and the empty payload's is 0 (the register inverted before and after) |
| `Hashing.Fnv1a32` | logstore.go:76-78 | the hash is a 32-bit value, and the empty key hashes to the offset basis 2166136261 |
| `Hashing.FnvUpdateAppend` | logstore.go:76-78 | hashing a key in two pieces gives the same value as hashing it whole: the fold runs left to right over the key's bytes |
| `Store.Modulus` | logstore.go:79 | uint32(numParts - 1) is numParts - 1 when that fits, 2^32 - 1 for zero partitions, and always congruent to numParts - 1 modulo 2^32 |
| `Store.Route` | logstore.go:76-79 | the index is below uint32(numParts - 1), and the call is a division-by-zero panic exactly when that modulus is 0 |
| `Store.RouteSkipsLastPartition` | logstore.go:76-79 | with 2 to 2^32 partitions every key routes below numParts - 1, never to the last partition |
| `Store.RouteSinglePartition` | logstore.go:79 | with one partition routing divides by zero |
| `Store.LogStore.New` | logstore.go:43-47 | a new store has one partition per index below numParts, each with its own newly opened file (`File.Open`) holding what was on disk, at offset 0 |
| `Store.LogStore.Setup` | logstore.go:54-72 | the partition list has numParts entries (none when numParts is not positive), entry i has index i, and no two entries share a file; entry i's file is newly opened by `File.Open` at offset 0 and holds `OnDisk(disk, i)`: the bytes on disk under index i, or nothing when the file is missing and is created (lines 58-70) |
| `Store.LogStore.Append` | logstore.go:75-86 | exactly the bytes of msgify(payload) are appended to the routed partition's file, 12 + \|payload\| is returned, and every other file is unchanged; a routing panic or an index past the list changes nothing |
| `Store.LogStore.Partition` | logstore.go:89-95 | ErrNoPartition if and only if idx > numParts; success exactly for 0 <= idx < numParts; idx == numParts passes the guard and is an index-out-of-range panic |
| `Store.LogStore.Read` | logstore.go:132-143 | the same guard as Partition; then the chosen file's bytes from the sought offset (or from the current offset when the offset is negative) are copied into the buffer as one read delivers them, and no file's bytes change |
| `Store.LogStore.UnMarshal` | logstore.go:98-119 | the loop over cursor `s` returns exactly what `Decode` specifies |

## Left out

- The `sync.RWMutex` of each partition and all concurrency. `Append` and `Read` are
  atomic steps here.
- The data directory, `os.Mkdir`, the `fmt.Sprintf` file names, and the panics when a
  file cannot be created or opened. `New` takes the bytes already on disk for each
  partition index instead. Files that do not exist start empty.
- I/O errors of writes, reads and seeks, and short writes (`io.ErrShortWrite`). Every
  write appends the whole frame. The error a negative `Seek` returns is ignored by the
  code, and so by the model.
- `bufio.Reader`: only the single `Read` on a fresh reader is modelled. How far it
  moves the file offset is modelled too. The bytes left in its internal buffer are not.
- `Store.LogStore.Setup`: only the first call is modelled (it requires an empty
  partition list). A second call would open every file again and append duplicate
  partitions sharing those files.
- `Hashing.Checksum` and `Hashing.Fnv1a32` are written after Go's library loops. They
  are not proved equal to `hash/crc32` or `hash/fnv`. Nothing in the model depends on
  the checksum's value, because decoding never checks it.
- Aliasing: `parse` returns payloads that share memory with the input buffer. The
  model returns them as values, so a later overwrite of the buffer is not reflected.
- `Store.RouteSkipsLastPartition` proves that the index stays below `numParts - 1`.
  It does not prove that every index below that is reachable by some key.
- Partition keys are Go strings; the model takes their bytes.
- Go `int` and `int64` are unbounded integers here. Only the conversions the code
  performs (`uint32(numParts-1)`, the `uint64` length field) are truncated explicitly.
- `logstore_test.go` calls `uuidgen` and prints. It has no logic to model.

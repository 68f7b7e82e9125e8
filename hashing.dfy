/** The two hash functions the log store calls: the CRC-32 checksum of a payload
    (hash/crc32 with a table built from 0x04C11DB7) and the 32-bit FNV-1a hash of a
    partition key (hash/fnv). Both are the byte-at-a-time loops of Go's library,
    written as left folds over the input. */
module Hashing {
  import opened Bytes

  const CrcPolynomial: bv32 := 0x04C11DB7

  /** One table entry of crc32.MakeTable for a polynomial that is neither IEEE nor
      Castagnoli: eight shift-and-xor rounds starting from the entry's index. */
  function CrcTableEntry(i: bv32): bv32 {
    CrcRounds(i, 8)
  }

  function CrcRounds(crc: bv32, rounds: nat): bv32
    decreases rounds
  {
    if rounds == 0 then crc
    else CrcRounds(if crc & 1 == 1 then (crc >> 1) ^ CrcPolynomial else crc >> 1, rounds - 1)
  }

  /** The table-driven update: crc = tab[byte(crc) ^ v] ^ (crc >> 8) for each byte v. */
  function CrcUpdate(crc: bv32, data: seq<byte>): bv32
    decreases data
  {
    if data == [] then crc
    else CrcUpdate(CrcTableEntry((crc & 0xFF) ^ data[0] as bv32) ^ (crc >> 8), data[1..])
  }

  /** checksum(data): crc32.Checksum over the table, the register inverted
      before and after. The empty payload's checksum is 0. */
  function Checksum(data: seq<byte>): (r: uint32)
    ensures data == [] ==> r == 0
  {
    (!CrcUpdate(!0, data)) as int
  }

  const FnvOffset32: bv32 := 2166136261
  const FnvPrime32: bv32 := 16777619

  /** FNV-1a: xor the byte in, then multiply by the prime, modulo 2^32. */
  function FnvUpdate(hash: bv32, data: seq<byte>): bv32
    decreases data
  {
    if data == [] then hash
    else FnvUpdate(FnvStep(hash, data[0]), data[1..])
  }

  function FnvStep(hash: bv32, v: byte): bv32 {
    (hash ^ v as bv32) * FnvPrime32
  }

  /** Hashing `b` after `a` gives the hash of `a + b`: a key may be written to
      the hash in pieces. */
  lemma {:induction false} FnvUpdateAppend(hash: bv32, a: seq<byte>, b: seq<byte>)
    ensures FnvUpdate(hash, a + b) == FnvUpdate(FnvUpdate(hash, a), b)
    decreases a
  {
    if a == [] {
      assert a + b == b;
    } else {
      assert (a + b)[1..] == a[1..] + b;
      FnvUpdateAppend(FnvStep(hash, a[0]), a[1..], b);
    }
  }

  /** fnv.New32a, one Write of the key, Sum32. The empty key hashes to the
      offset basis. */
  function Fnv1a32(data: seq<byte>): (r: uint32)
    ensures data == [] ==> r == FnvOffset32 as int
  {
    FnvUpdate(FnvOffset32, data) as int
  }
}

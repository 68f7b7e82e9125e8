/** The log store: partitions each owning an append-mode file, routing of keys to
    partitions by an FNV-1a hash, Append, Partition, Read and UnMarshal. A file is
    an object whose bytes and read/write offset change in place; the store's
    partition list is fixed once Setup has run. Locks are not modelled: Append and
    Read are atomic here. */
module Store {
  import opened Bytes
  import opened Errors
  import opened Frame
  import Hashing

  /** Size of the buffer of a bufio.Reader made by bufio.NewReader. */
  const ReaderBufferSize: nat := 4096

  /** The most one read on a file descriptor transfers (maxRW of Go's
      internal/poll): a longer request is cut down to it. */
  const MaxRead: nat := 0x4000_0000

  /** How many bytes one read of `want` bytes asks the file for: a request of at
      least ReaderBufferSize bytes goes to the file directly and is capped at
      MaxRead; a smaller one is served from one read of ReaderBufferSize bytes. */
  function FileRequest(want: nat): nat {
    if want >= ReaderBufferSize then Min(want, MaxRead) else ReaderBufferSize
  }

  /** The bytes one read of `want` bytes at file offset `start` delivers: none
      when nothing is asked for, EOF at or past the end of the file, otherwise
      as many as are asked for and available, up to MaxRead. */
  function ReadSpan(contents: seq<byte>, start: nat, want: nat): (r: Result<seq<byte>>)
    ensures want == 0 ==> r == Ok([])
    ensures want > 0 ==> (r.Fail? <==> start >= |contents|)
    ensures r.Fail? ==> r.error == EOF
    ensures r.Ok? && want > 0 ==>
      && 0 < |r.value| <= want
      && |r.value| <= MaxRead
      && start + |r.value| <= |contents|
      && r.value == contents[start..start + |r.value|]
    ensures r.Ok? && |r.value| < want ==> start + |r.value| == |contents| || |r.value| == MaxRead
  {
    if want == 0 then Ok([])
    else if start >= |contents| then Fail(EOF)
    else Ok(contents[start..start + Min(Min(want, FileRequest(want)), |contents| - start)])
  }

  /** How far that read moves the file offset: by what the file read got, which
      for a small request can be more than it delivers. */
  function ReaderAdvance(contents: seq<byte>, start: nat, want: nat): (r: nat)
    ensures r == 0 <==> want == 0 || start >= |contents|
    ensures start + r <= |contents| || r == 0
    ensures ReadSpan(contents, start, want).Ok? ==> |ReadSpan(contents, start, want).value| <= r
    ensures want >= ReaderBufferSize && ReadSpan(contents, start, want).Ok? ==>
      r == |ReadSpan(contents, start, want).value|
  {
    if want == 0 || start >= |contents| then 0
    else Min(FileRequest(want), |contents| - start)
  }

  /** An open *os.File in append mode: its bytes and its current offset. */
  class File {
    var contents: seq<byte>
    var offset: nat

    /** os.OpenFile on a file that holds `contents`. */
    constructor Open(contents: seq<byte>)
      ensures this.contents == contents && offset == 0
    {
      this.contents := contents;
      offset := 0;
    }

    /** Write on an O_APPEND descriptor: the bytes land at the end of the file,
        and the offset is left there. */
    method Write(data: seq<byte>) returns (n: nat)
      modifies this
      ensures contents == old(contents) + data
      ensures offset == |contents|
      ensures n == |data|
    {
      contents := contents + data;
      offset := |contents|;
      n := |data|;
    }

    /** Seek(offset, io.SeekStart): a negative offset is refused and leaves the
        file offset where it was; any other, even past the end, is taken. */
    method Seek(to: int) returns (ok: bool)
      modifies this
      ensures contents == old(contents)
      ensures ok <==> to >= 0
      ensures offset == if to >= 0 then to else old(offset)
    {
      ok := to >= 0;
      if ok {
        offset := to;
      }
    }

    /** Read through a new bufio.Reader: fills buf[..n] from the file offset. A
        buffer of at least ReaderBufferSize bytes is read into directly, at most
        MaxRead bytes at once; a smaller one is served from one read of
        ReaderBufferSize bytes, which moves the file offset by what that read got. */
    method ReadBuffered(buf: array<byte>) returns (r: Result<nat>)
      modifies this, buf
      ensures contents == old(contents)
      ensures match ReadSpan(contents, old(offset), buf.Length)
        case Fail(e) => r == Fail(e) && buf[..] == old(buf[..])
        case Ok(data) => r == Ok(|data|) && buf[..|data|] == data && buf[|data|..] == old(buf[|data|..])
      ensures offset == old(offset) + ReaderAdvance(contents, old(offset), buf.Length)
    {
      var span := ReadSpan(contents, offset, buf.Length);
      if span.Fail? {
        r := Fail(span.error);
        return;
      }
      var data := span.value;
      forall i | 0 <= i < |data| {
        buf[i] := data[i];
      }
      offset := offset + ReaderAdvance(contents, offset, buf.Length);
      r := Ok(|data|);
    }
  }

  function Min(a: nat, b: nat): nat {
    if a <= b then a else b
  }

  /** A partition: its file and its index. */
  datatype Partition = Handle(fd: File, idx: int)

  /** uint32(numParts - 1): the two's-complement conversion of a Go int, which
      keeps the value when it fits and wraps it modulo 2^32 otherwise. */
  function Modulus(numParts: int): (r: uint32)
    ensures 1 <= numParts <= 0x1_0000_0000 ==> r == numParts - 1
    ensures numParts == 0 ==> r == 0xFFFF_FFFF
    ensures (numParts - 1 - r) % 0x1_0000_0000 == 0
  {
    (numParts - 1) % 0x1_0000_0000
  }

  /** The partition index Append computes for `key`:
      fnv32a(key) % uint32(numParts - 1), a runtime panic when that modulus is 0. */
  function Route(key: seq<byte>, numParts: int): (r: Result<nat>)
    ensures r.Fail? <==> Modulus(numParts) == 0
    ensures r.Fail? ==> r.error == PanicDivideByZero
    ensures r.Ok? ==> r.value < Modulus(numParts)
  {
    var m := Modulus(numParts);
    if m == 0 then Fail(PanicDivideByZero) else Ok(Hashing.Fnv1a32(key) % m)
  }

  /** For 2 to 2^32 partitions every key is routed below numParts - 1: the last
      partition is never chosen. */
  lemma RouteSkipsLastPartition(key: seq<byte>, numParts: int)
    requires 2 <= numParts <= 0x1_0000_0000
    ensures Route(key, numParts).Ok?
    ensures Route(key, numParts).value < numParts - 1
  {
  }

  /** With a single partition the modulus is zero. */
  lemma RouteSinglePartition(key: seq<byte>)
    ensures Route(key, 1) == Fail(PanicDivideByZero)
  {
  }

  /** The file a partition starts with: what is on disk under its index, or a
      newly created empty file. */
  function OnDisk(disk: map<int, seq<byte>>, i: int): seq<byte> {
    if i in disk then disk[i] else []
  }

  class LogStore {
    const numParts: int
    var partitions: seq<Partition>

    /** After Setup: one partition per index below numParts, at its own position,
        each with a file of its own. */
    ghost predicate Valid()
      reads this
    {
      && |partitions| == (if numParts < 0 then 0 else numParts)
      && (forall i :: 0 <= i < |partitions| ==> partitions[i].idx == i)
      && (forall i, j :: 0 <= i < j < |partitions| ==> partitions[i].fd != partitions[j].fd)
    }

    ghost function Files(): set<File>
      reads this
    {
      set i | 0 <= i < |partitions| :: partitions[i].fd
    }

    /** New(dataDir, partitions): an empty store on which Setup has run. */
    constructor New(numParts: int, disk: map<int, seq<byte>>)
      ensures this.numParts == numParts && Valid()
      ensures forall i :: 0 <= i < |partitions| ==>
        fresh(partitions[i].fd) && partitions[i].fd.contents == OnDisk(disk, i) && partitions[i].fd.offset == 0
    {
      this.numParts := numParts;
      partitions := [];
      new;
      Setup(disk);
    }

    /** Opens (or creates) the file of every partition 0 .. numParts-1 and appends
        a partition for it, in index order. */
    method Setup(disk: map<int, seq<byte>>)
      requires partitions == []
      modifies this
      ensures Valid()
      ensures forall i :: 0 <= i < |partitions| ==>
        fresh(partitions[i].fd) && partitions[i].fd.contents == OnDisk(disk, i) && partitions[i].fd.offset == 0
    {
      var i := 0;
      while i < numParts
        invariant i == |partitions| && (i == 0 || i <= numParts)
        invariant forall j :: 0 <= j < i ==> partitions[j].idx == j
        invariant forall j :: 0 <= j < i ==>
          fresh(partitions[j].fd) && partitions[j].fd.contents == OnDisk(disk, j) && partitions[j].fd.offset == 0
        invariant forall j, k :: 0 <= j < k < i ==> partitions[j].fd != partitions[k].fd
      {
        var fd := new File.Open(OnDisk(disk, i));
        partitions := partitions + [Handle(fd, i)];
        i := i + 1;
      }
    }

    /** Routes `key`, frames `payload` and appends the frame to the file of the
        routed partition, and to no other. */
    method Append(key: seq<byte>, payload: seq<byte>) returns (r: Result<nat>)
      requires Valid()
      modifies Files()
      ensures match Route(key, numParts)
        case Fail(e) => r == Fail(e)
        case Ok(idx) =>
          if idx < |partitions| then
            && r == Ok(HeaderSize + |payload|)
            && partitions[idx].fd.contents == old(partitions[idx].fd.contents) + Encode(payload)
            && partitions[idx].fd.offset == |partitions[idx].fd.contents|
          else
            r == Fail(PanicIndexOutOfRange)
      ensures forall j :: 0 <= j < |partitions| && Route(key, numParts) != Ok(j) ==> unchanged(partitions[j].fd)
    {
      var route := Route(key, numParts);
      if route.Fail? {
        return Fail(route.error);
      }
      var idx := route.value;
      if idx >= |partitions| {
        return Fail(PanicIndexOutOfRange);
      }
      var prtn := partitions[idx];
      var msg := Encode(payload);
      var n := prtn.fd.Write(msg);
      r := Ok(n);
    }

    /** Partition(idx): refused with ErrNoPartition only when idx > numParts, so
        idx == numParts passes the guard and indexes one past the end. */
    function Partition(idx: int): (r: Result<Partition>)
      reads this
      requires Valid()
      ensures r == Fail(ErrNoPartition) <==> idx > numParts
      ensures r.Ok? <==> 0 <= idx < numParts
      ensures r.Ok? ==> r.value.idx == idx
      ensures 0 <= numParts && idx == numParts ==> r == Fail(PanicIndexOutOfRange)
    {
      if idx > numParts then Fail(ErrNoPartition)
      else if idx < 0 || idx >= |partitions| then Fail(PanicIndexOutOfRange)
      else Ok(partitions[idx])
    }

    /** Read(partition, offset, buf): the same guard as Partition, then a seek to
        `offset` (ignored when negative) and one buffered read into `buf`. */
    method Read(partition: int, offset: int, buf: array<byte>) returns (r: Result<nat>)
      requires Valid()
      modifies buf, Files()
      ensures forall f :: f in Files() ==> f.contents == old(f.contents)
      ensures partition > numParts ==>
        r == Fail(ErrNoPartition) && buf[..] == old(buf[..]) && forall f :: f in Files() ==> unchanged(f)
      ensures partition <= numParts && !(0 <= partition < numParts) ==>
        r == Fail(PanicIndexOutOfRange) && buf[..] == old(buf[..]) && forall f :: f in Files() ==> unchanged(f)
      ensures 0 <= partition < numParts ==>
        var fd := partitions[partition].fd;
        var start := if offset >= 0 then offset else old(fd.offset);
        && (forall j :: 0 <= j < |partitions| && j != partition ==> unchanged(partitions[j].fd))
        && fd.offset == start + ReaderAdvance(fd.contents, start, buf.Length)
        && match ReadSpan(fd.contents, start, buf.Length)
          case Fail(e) => r == Fail(e) && buf[..] == old(buf[..])
          case Ok(data) => r == Ok(|data|) && buf[..|data|] == data && buf[|data|..] == old(buf[|data|..])
    {
      if partition > numParts {
        return Fail(ErrNoPartition);
      }
      if partition < 0 || partition >= |partitions| {
        return Fail(PanicIndexOutOfRange);
      }
      var prtn := partitions[partition];
      var _ := prtn.fd.Seek(offset);
      r := prtn.fd.ReadBuffered(buf);
    }

    /** UnMarshal for a slice of length `blen` whose bytes up to its capacity are
        `b`: the loop of Go's UnMarshal, cursor `s` and messages `msgs`. */
    method UnMarshal(b: seq<byte>, blen: nat) returns (r: Result<seq<Message>>)
      requires blen <= |b|
      ensures r == Decode(b, blen)
    {
      if blen < MinBuffer {
        return Fail(ErrShortPayload);
      }
      var msgs: seq<Message> := [];
      var s: nat := 0;
      assert Prepend(msgs, DecodeFrom(b, blen, s)) == DecodeFrom(b, blen, s) by {
        if DecodeFrom(b, blen, s).Ok? {
          assert [] + DecodeFrom(b, blen, s).value == DecodeFrom(b, blen, s).value;
        }
      }
      while true
        invariant s <= |b| && s != blen
        invariant s < blen ==> Decode(b, blen) == Prepend(msgs, DecodeFrom(b, blen, s))
        invariant s > blen ==> Decode(b, blen) == Fail(PanicSliceBounds)
        decreases |b| - s
      {
        if s > blen {
          return Fail(PanicSliceBounds);   // b[s:] past len(b)
        }
        var parsed := Parse(b[s..]);
        if parsed.Fail? {
          return Fail(parsed.error);
        }
        var (msg, n) := parsed.value;
        PrependTwice(msgs, msg, if s + n < blen then DecodeFrom(b, blen, s + n) else Ok([]));
        msgs := msgs + [msg];
        s := s + n;
        if s == blen {
          break;
        }
      }
      r := Ok(msgs);
    }
  }
}

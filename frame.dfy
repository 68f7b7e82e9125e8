/** The on-disk message frame of the log store: an 8-byte big-endian length that
    counts the whole frame (header included), a 4-byte big-endian checksum of the
    payload, then the payload. Encode is msgify; Parse and Decode are parse and
    the loop of UnMarshal.

    A Go slice is modelled by the bytes it can reach up to its capacity (`b`) and
    its length (`blen`): parse's slice expressions are bounded by the capacity,
    the loop's b[s:] by the length. */
module Frame {
  import opened Bytes
  import opened Errors
  import Hashing

  const LengthSize: nat := 8
  const ChecksumSize: nat := 4
  const HeaderSize: nat := 12   // LengthSize + ChecksumSize
  const MinBuffer: nat := 13    // UnMarshal rejects anything shorter

  /** A decoded frame; `length` is the declared size of the whole frame. */
  datatype Message = Message(length: uint64, checksum: uint32, payload: seq<byte>)

  /** The frame msgify builds for `payload`. The length field is 12 + |payload|,
      truncated to 64 bits by the conversion to uint64. */
  function Encode(payload: seq<byte>): (frame: seq<byte>)
    ensures |frame| == HeaderSize + |payload|
  {
    BigEndian(HeaderSize + |payload|, LengthSize)
      + BigEndian(Hashing.Checksum(payload), ChecksumSize)
      + payload
  }

  /** The message msgify(payload) stands for, when its length fits 64 bits. */
  function Msgified(payload: seq<byte>): Message
    requires HeaderSize + |payload| < Uint64Limit
  {
    Message(HeaderSize + |payload|, Hashing.Checksum(payload), payload)
  }

  /** A message whose declared length is the size of its own frame. */
  predicate WellFormed(m: Message) {
    m.length == HeaderSize + |m.payload|
  }

  predicate AllWellFormed(ms: seq<Message>) {
    forall i :: 0 <= i < |ms| ==> WellFormed(ms[i])
  }

  /** The bytes of one frame carrying `m`'s fields as they are. */
  function FrameBytes(m: Message): seq<byte> {
    BigEndian(m.length, LengthSize) + BigEndian(m.checksum, ChecksumSize) + m.payload
  }

  function Frames(ms: seq<Message>): seq<byte> {
    if ms == [] then [] else FrameBytes(ms[0]) + Frames(ms[1..])
  }

  function TotalLength(ms: seq<Message>): nat {
    if ms == [] then 0 else ms[0].length + TotalLength(ms[1..])
  }

  predicate AllFit(ps: seq<seq<byte>>) {
    forall i :: 0 <= i < |ps| ==> HeaderSize + |ps[i]| < Uint64Limit
  }

  /** Several payloads appended one after another. */
  function EncodeAll(ps: seq<seq<byte>>): seq<byte> {
    if ps == [] then [] else Encode(ps[0]) + EncodeAll(ps[1..])
  }

  function MsgifiedAll(ps: seq<seq<byte>>): (ms: seq<Message>)
    requires AllFit(ps)
    ensures |ms| == |ps|
    ensures forall i :: 0 <= i < |ps| ==> ms[i] == Msgified(ps[i])
  {
    if ps == [] then [] else [Msgified(ps[0])] + MsgifiedAll(ps[1..])
  }

  /** parse applied to a slice whose bytes up to its capacity are `p`: read the
      length and the checksum, take payload[12:ln] and consume ln bytes. Every
      slice expression out of range is a runtime panic; the checksum is not
      compared with the payload. */
  function Parse(p: seq<byte>): (r: Result<(Message, nat)>)
    ensures r.Ok? ==> HeaderSize <= r.value.1 <= |p|
    ensures r.Fail? ==> r.error == PanicSliceBounds
  {
    if |p| < HeaderSize then Fail(PanicSliceBounds)   // payload[:8] or payload[8:12]
    else
      Pow256Widths();
      var ln := FromBigEndian(p[..LengthSize]);
      var crc := FromBigEndian(p[LengthSize..HeaderSize]);
      if ln < HeaderSize || ln > |p| then Fail(PanicSliceBounds)   // payload[12:ln]
      else Ok((Message(ln, crc, p[HeaderSize..ln]), ln))
  }

  function Prepend(ms: seq<Message>, r: Result<seq<Message>>): Result<seq<Message>> {
    if r.Ok? then Ok(ms + r.value) else r
  }

  /** The messages UnMarshal's loop collects from cursor `s` on: parse at `s`,
      advance by the frame's declared length, stop when the cursor is exactly the
      slice's length, panic on the next b[s:] if it went past it. */
  function DecodeFrom(b: seq<byte>, blen: nat, s: nat): (r: Result<seq<Message>>)
    requires s < blen <= |b|
    ensures r.Fail? ==> r.error == PanicSliceBounds
    ensures r.Ok? ==> 0 < |r.value| && |r.value| * HeaderSize <= blen - s
    decreases |b| - s
  {
    match Parse(b[s..])
    case Fail(e) => Fail(e)
    case Ok((m, n)) =>
      if s + n == blen then Ok([m])
      else if s + n > blen then Fail(PanicSliceBounds)
      else Prepend([m], DecodeFrom(b, blen, s + n))
  }

  lemma PrependTwice(msgs: seq<Message>, msg: Message, rest: Result<seq<Message>>)
    ensures Prepend(msgs, Prepend([msg], rest)) == Prepend(msgs + [msg], rest)
  {
    if rest.Ok? {
      assert msgs + ([msg] + rest.value) == (msgs + [msg]) + rest.value;
    }
  }

  /** UnMarshal(b) for a slice of length `blen` whose bytes up to its capacity are `b`. */
  function Decode(b: seq<byte>, blen: nat): (r: Result<seq<Message>>)
    requires blen <= |b|
    ensures blen < MinBuffer ==> r == Fail(ErrShortPayload)
    ensures blen >= MinBuffer && r.Fail? ==> r.error == PanicSliceBounds
    ensures r.Ok? ==> 0 < |r.value| && |r.value| * HeaderSize <= blen
  {
    if blen < MinBuffer then Fail(ErrShortPayload) else DecodeFrom(b, blen, 0)
  }

  // ---------------------------------------------------------------------------
  // msgify

  /** The three fields of a frame read back as what msgify wrote: the length
      12 + |payload| (modulo 2^64), the checksum of the payload, the payload. */
  lemma EncodeLayout(payload: seq<byte>)
    ensures |Encode(payload)| == HeaderSize + |payload|
    ensures FromBigEndian(Encode(payload)[..LengthSize]) == (HeaderSize + |payload|) % Uint64Limit
    ensures FromBigEndian(Encode(payload)[LengthSize..HeaderSize]) == Hashing.Checksum(payload)
    ensures Encode(payload)[HeaderSize..] == payload
  {
    var frame := Encode(payload);
    Pow256Widths();
    assert frame[..LengthSize] == BigEndian(HeaderSize + |payload|, LengthSize);
    assert frame[LengthSize..HeaderSize] == BigEndian(Hashing.Checksum(payload), ChecksumSize);
    FromBigEndianOfBigEndian(HeaderSize + |payload|, LengthSize);
    BigEndianRoundTrip(Hashing.Checksum(payload), ChecksumSize);
  }

  // ---------------------------------------------------------------------------
  // parse

  /** What parse returns is exactly the frame it consumed: re-encoding the
      message gives back the first n bytes, and its length is n. */
  lemma ParseSound(p: seq<byte>)
    requires Parse(p).Ok?
    ensures var (m, n) := Parse(p).value;
      WellFormed(m) && n == m.length && FrameBytes(m) == p[..n]
  {
    var (m, n) := Parse(p).value;
    BigEndianOfFromBigEndian(p[..LengthSize]);
    BigEndianOfFromBigEndian(p[LengthSize..HeaderSize]);
    assert p[..n] == p[..LengthSize] + p[LengthSize..HeaderSize] + p[HeaderSize..n];
  }

  /** parse reads back any well-formed frame, whatever follows it. */
  lemma ParseFrame(m: Message, rest: seq<byte>)
    requires WellFormed(m)
    ensures Parse(FrameBytes(m) + rest) == Ok((m, m.length))
  {
    var p := FrameBytes(m) + rest;
    Pow256Widths();
    assert p[..LengthSize] == BigEndian(m.length, LengthSize);
    assert p[LengthSize..HeaderSize] == BigEndian(m.checksum, ChecksumSize);
    assert p[HeaderSize..m.length] == m.payload;
    BigEndianRoundTrip(m.length, LengthSize);
    BigEndianRoundTrip(m.checksum, ChecksumSize);
  }

  /** parse sees at most `q`'s bytes when `q` is a prefix of `p` long enough for the frame. */
  lemma ParsePrefix(p: seq<byte>, q: seq<byte>)
    requires |q| <= |p| && q == p[..|q|]
    ensures Parse(q).Ok? ==> Parse(p) == Parse(q)
    ensures Parse(p).Ok? && Parse(p).value.1 <= |q| ==> Parse(q) == Parse(p)
  {
    if |q| >= HeaderSize {
      assert q[..LengthSize] == p[..LengthSize];
      assert q[LengthSize..HeaderSize] == p[LengthSize..HeaderSize];
      var ln := FromBigEndian(p[..LengthSize]);
      if HeaderSize <= ln <= |q| {
        assert q[HeaderSize..ln] == p[HeaderSize..ln];
      }
    }
  }

  // ---------------------------------------------------------------------------
  // frames

  lemma {:induction false} FramesLength(ms: seq<Message>)
    requires AllWellFormed(ms)
    ensures |Frames(ms)| == TotalLength(ms)
  {
    if ms != [] {
      FramesLength(ms[1..]);
    }
  }

  lemma {:induction false} FramesAppend(ms: seq<Message>, m: Message)
    ensures Frames(ms + [m]) == Frames(ms) + FrameBytes(m)
  {
    if ms == [] {
      assert ms + [m] == [m];
    } else {
      assert (ms + [m])[1..] == ms[1..] + [m];
      FramesAppend(ms[1..], m);
    }
  }

  lemma {:induction false} EncodeAllFrames(ps: seq<seq<byte>>)
    requires AllFit(ps)
    ensures EncodeAll(ps) == Frames(MsgifiedAll(ps))
    ensures AllWellFormed(MsgifiedAll(ps))
  {
    if ps != [] {
      EncodeAllFrames(ps[1..]);
      assert MsgifiedAll(ps)[1..] == MsgifiedAll(ps[1..]);
    }
  }

  // ---------------------------------------------------------------------------
  // the decoding loop

  /** One step of the loop: after a successful parse the loop either stops at
      the slice's length or goes on from the next frame. */
  lemma DecodeFromStep(b: seq<byte>, blen: nat, s: nat, m: Message, n: nat)
    requires s < blen <= |b|
    requires Parse(b[s..]) == Ok((m, n))
    ensures s + n == blen ==> DecodeFrom(b, blen, s) == Ok([m])
    ensures s + n < blen ==> DecodeFrom(b, blen, s) == Prepend([m], DecodeFrom(b, blen, s + n))
  {
  }

  lemma FramesSplit(b: seq<byte>, blen: nat, s: nat, ms: seq<Message>)
    requires s < blen <= |b| && ms != []
    requires b[s..blen] == Frames(ms)
    ensures b[s..] == FrameBytes(ms[0]) + (Frames(ms[1..]) + b[blen..])
    ensures s + |FrameBytes(ms[0])| <= blen
    ensures b[s + |FrameBytes(ms[0])|..blen] == Frames(ms[1..])
  {
    assert b[s..] == b[s..blen] + b[blen..];
    assert b[s..blen][|FrameBytes(ms[0])|..] == b[s + |FrameBytes(ms[0])|..blen];
  }

  /** A run of well-formed frames between the cursor and the slice's length decodes
      to exactly those messages, in order. */
  lemma {:induction false} DecodeFromFrames(b: seq<byte>, blen: nat, s: nat, ms: seq<Message>)
    requires s < blen <= |b|
    requires ms != [] && AllWellFormed(ms)
    requires b[s..blen] == Frames(ms)
    ensures DecodeFrom(b, blen, s) == Ok(ms)
    decreases |ms|
  {
    var m, rest := ms[0], ms[1..];
    assert WellFormed(m);
    FramesSplit(b, blen, s, ms);
    ParseFrame(m, Frames(rest) + b[blen..]);
    DecodeFromStep(b, blen, s, m, m.length);
    if rest != [] {
      assert WellFormed(rest[0]) by { assert rest[0] == ms[1]; }
      assert |Frames(rest)| > 0;
      DecodeFromFrames(b, blen, s + m.length, rest);
      assert [m] + rest == ms;
    } else {
      assert ms == [m];
    }
  }

  /** Whatever the loop decodes successfully is a run of well-formed frames that
      fills the slice from the cursor to its length exactly. */
  lemma {:induction false} DecodeFromSound(b: seq<byte>, blen: nat, s: nat)
    requires s < blen <= |b|
    requires DecodeFrom(b, blen, s).Ok?
    ensures var ms := DecodeFrom(b, blen, s).value;
      ms != [] && AllWellFormed(ms) && b[s..blen] == Frames(ms)
    decreases |b| - s
  {
    var (m, n) := Parse(b[s..]).value;
    ParseSound(b[s..]);
    assert b[s..s + n] == FrameBytes(m);
    if s + n < blen {
      DecodeFromSound(b, blen, s + n);
      var rest := DecodeFrom(b, blen, s + n).value;
      assert DecodeFrom(b, blen, s).value == [m] + rest;
      assert ([m] + rest)[1..] == rest;
      assert b[s..blen] == b[s..s + n] + b[s + n..blen];
    }
  }

  /** The result of the loop never depends on the bytes between the slice's
      length and its capacity. */
  lemma {:induction false} DecodeFromIgnoresCapacity(b: seq<byte>, blen: nat, s: nat)
    requires s < blen <= |b|
    ensures DecodeFrom(b, blen, s) == DecodeFrom(b[..blen], blen, s)
    decreases |b| - s
  {
    var short := b[..blen];
    assert short[s..] == b[s..][..blen - s];
    ParsePrefix(b[s..], short[s..]);
    if Parse(b[s..]).Ok? {
      var (m, n) := Parse(b[s..]).value;
      if s + n < blen {
        DecodeFromIgnoresCapacity(b, blen, s + n);
      }
    }
  }

  // ---------------------------------------------------------------------------
  // UnMarshal

  /** UnMarshal succeeds with `ms` exactly when the slice holds at least 13 bytes
      and is the concatenation of the frames of `ms`, all well-formed. */
  lemma DecodeCharacterization(b: seq<byte>, blen: nat, ms: seq<Message>)
    requires blen <= |b|
    ensures Decode(b, blen) == Ok(ms) <==>
      blen >= MinBuffer && ms != [] && AllWellFormed(ms) && b[..blen] == Frames(ms)
  {
    if blen >= MinBuffer {
      assert b[0..blen] == b[..blen];
      if Decode(b, blen) == Ok(ms) {
        DecodeFromSound(b, blen, 0);
      }
      if ms != [] && AllWellFormed(ms) && b[..blen] == Frames(ms) {
        DecodeFromFrames(b, blen, 0, ms);
      }
    }
  }

  /** Bytes past the length of the slice, up to its capacity, never change the outcome. */
  lemma DecodeIgnoresCapacity(b: seq<byte>, blen: nat)
    requires blen <= |b|
    ensures Decode(b, blen) == Decode(b[..blen], blen)
  {
    if blen >= MinBuffer {
      DecodeFromIgnoresCapacity(b, blen, 0);
    }
  }

  /** The declared lengths of the decoded messages add up to the slice's length,
      and each covers at least its header. */
  lemma DecodeCoversBuffer(b: seq<byte>, blen: nat)
    requires blen <= |b| && Decode(b, blen).Ok?
    ensures TotalLength(Decode(b, blen).value) == blen
    ensures forall i :: 0 <= i < |Decode(b, blen).value| ==>
      HeaderSize <= Decode(b, blen).value[i].length
  {
    var ms := Decode(b, blen).value;
    DecodeCharacterization(b, blen, ms);
    FramesLength(ms);
    assert |b[..blen]| == blen;
    forall i | 0 <= i < |ms| ensures HeaderSize <= ms[i].length {
      assert WellFormed(ms[i]);
    }
  }

  /** Round trip: a non-empty payload framed by msgify decodes to one message with
      length 12 + |payload|, the payload's checksum and the payload. */
  lemma RoundTrip(payload: seq<byte>, spare: seq<byte>)
    requires 1 <= |payload| && HeaderSize + |payload| < Uint64Limit
    ensures Decode(Encode(payload) + spare, |Encode(payload)|) == Ok([Msgified(payload)])
  {
    var m := Msgified(payload);
    assert Frames([m]) == Encode(payload);
    DecodeCharacterization(Encode(payload) + spare, |Encode(payload)|, [m]);
  }

  /** The 12-byte frame of an empty payload is too short for UnMarshal on its own. */
  lemma EmptyPayloadRejected(spare: seq<byte>)
    ensures Decode(Encode([]) + spare, |Encode([])|) == Fail(ErrShortPayload)
  {
  }

  /** The checksum field is never compared with the payload: a frame carrying any
      checksum value decodes as long as its length is right. */
  lemma ChecksumNotVerified(payload: seq<byte>, crc: uint32, spare: seq<byte>)
    requires 1 <= |payload| && HeaderSize + |payload| < Uint64Limit
    ensures var m := Message(HeaderSize + |payload|, crc, payload);
      Decode(FrameBytes(m) + spare, HeaderSize + |payload|) == Ok([m])
  {
    var m := Message(HeaderSize + |payload|, crc, payload);
    assert Frames([m]) == FrameBytes(m);
    DecodeCharacterization(FrameBytes(m) + spare, HeaderSize + |payload|, [m]);
  }

  /** Frames appended one after another decode to their payloads in order, and
      the declared lengths add up to the bytes written. */
  lemma ConcatRoundTrip(ps: seq<seq<byte>>, spare: seq<byte>)
    requires AllFit(ps) && |EncodeAll(ps)| >= MinBuffer
    ensures Decode(EncodeAll(ps) + spare, |EncodeAll(ps)|) == Ok(MsgifiedAll(ps))
    ensures TotalLength(MsgifiedAll(ps)) == |EncodeAll(ps)|
  {
    var b := EncodeAll(ps) + spare;
    EncodeAllFrames(ps);
    FramesLength(MsgifiedAll(ps));
    assert b[..|EncodeAll(ps)|] == EncodeAll(ps);
    DecodeCharacterization(b, |EncodeAll(ps)|, MsgifiedAll(ps));
  }

  /** A file that holds whole frames still does after one more msgify frame is
      appended, and decodes to the old messages followed by the new one. */
  lemma DecodeAfterAppend(ms: seq<Message>, payload: seq<byte>)
    requires AllWellFormed(ms) && HeaderSize + |payload| < Uint64Limit
    requires |Frames(ms)| + |Encode(payload)| >= MinBuffer
    ensures Frames(ms) + Encode(payload) == Frames(ms + [Msgified(payload)])
    ensures Decode(Frames(ms) + Encode(payload), |Frames(ms)| + |Encode(payload)|)
      == Ok(ms + [Msgified(payload)])
  {
    var m := Msgified(payload);
    FramesAppend(ms, m);
    assert FrameBytes(m) == Encode(payload);
    var ms' := ms + [m];
    assert AllWellFormed(ms') by {
      forall i | 0 <= i < |ms'| ensures WellFormed(ms'[i]) {
        if i < |ms| { assert ms'[i] == ms[i]; }
      }
    }
    var b := Frames(ms) + Encode(payload);
    assert b[..|b|] == b == Frames(ms');
    DecodeCharacterization(b, |b|, ms');
  }
}

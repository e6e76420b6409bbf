/** Demultiplexing Docker's log stream: 8-byte frame headers holding a big-endian payload size. */
module DockerLogs {
  type Byte = b: int | 0 <= b < 256

  const HEADER := 8

  // ---- sizes -----------------------------------------------------------------------------------

  function BigEndian(a: int, b: int, c: int, d: int): int {
    ((a * 256 + b) * 256 + c) * 256 + d
  }

  /** `DataView.getUint32(4, false)` on a buffer that starts with a header. */
  function SizeField(b: seq<Byte>): (n: nat)
    requires |b| >= HEADER
    ensures n < 0x1_0000_0000
  {
    BigEndian(b[4], b[5], b[6], b[7])
  }

  function SizeBytes(n: nat): (s: seq<Byte>)
    requires n < 0x1_0000_0000
    ensures |s| == 4
  {
    [n / 0x100_0000, n / 0x1_0000 % 256, n / 256 % 256, n % 256]
  }

  lemma LastByte(q: nat, d: Byte, n: nat)
    ensures q * 256 + d == n <==> q == n / 256 && d == n % 256
  {
  }

  lemma SizeRoundTrip(b: seq<Byte>, n: nat)
    requires |b| >= HEADER && n < 0x1_0000_0000
    ensures SizeField(b) == n <==> b[4..8] == SizeBytes(n)
  {
    var b4: int, b5: int, b6: int := b[4], b[5], b[6];
    LastByte((b4 * 256 + b5) * 256 + b6, b[7], n);
    LastByte(b4 * 256 + b5, b[6], n / 256);
    LastByte(b4, b[5], n / 256 / 256);
    assert n / 256 / 256 == n / 0x1_0000 && n / 256 / 256 / 256 == n / 0x100_0000;
    var s := b[4..8];
    assert s[0] == b[4] && s[1] == b[5] && s[2] == b[6] && s[3] == b[7];
  }

  // ---- the parser ------------------------------------------------------------------------------

  /** The chunks of a buffer: a header needs at least one byte behind it, a zero size is skipped, and
      the last chunk may be cut short. */
  function Chunks(b: seq<Byte>): seq<seq<Byte>>
    decreases |b|
  {
    if |b| <= HEADER then []
    else
      var size := SizeField(b);
      if size == 0 then Chunks(b[HEADER..])
      else if HEADER + size <= |b| then [b[HEADER..HEADER + size]] + Chunks(b[HEADER + size..])
      else [b[HEADER..]]
  }

  function ChunksFrom(b: seq<Byte>, offset: nat): seq<seq<Byte>> {
    if offset <= |b| then Chunks(b[offset..]) else []
  }

  function SizeAt(b: seq<Byte>, offset: nat): nat
    requires offset + HEADER <= |b|
  {
    SizeField(b[offset..])
  }

  function Chunk(b: seq<Byte>, from: nat, to: nat): seq<Byte>
    requires from <= |b| && from <= to
  {
    b[from..if to < |b| then to else |b|]
  }

  /** One iteration of the loop, seen from the whole buffer. */
  lemma ChunkStep(all: seq<seq<Byte>>, lines: seq<seq<Byte>>, b: seq<Byte>, offset: nat, size: nat)
    requires offset < |b| - HEADER
    requires size == SizeAt(b, offset) && all == lines + ChunksFrom(b, offset)
    ensures size == 0 ==> all == lines + ChunksFrom(b, offset + HEADER)
    ensures size > 0 ==>
              all == lines + [Chunk(b, offset + HEADER, offset + HEADER + size)] + ChunksFrom(b, offset + HEADER + size)
  {
    if size == 0 {
      assert b[offset..][HEADER..] == b[offset + HEADER..];
    } else if offset + HEADER + size <= |b| {
      WholeChunk(b, offset, size);
      assert lines + ([b[offset + HEADER..offset + HEADER + size]] + Chunks(b[offset + HEADER + size..]))
          == lines + [b[offset + HEADER..offset + HEADER + size]] + Chunks(b[offset + HEADER + size..]);
    } else {
      assert Chunk(b, offset + HEADER, offset + HEADER + size) == b[offset..][HEADER..];
    }
  }

  lemma WholeChunk(b: seq<Byte>, offset: nat, size: nat)
    requires offset < |b| - HEADER && size == SizeAt(b, offset) && size > 0 && offset + HEADER + size <= |b|
    ensures Chunks(b[offset..]) == [b[offset + HEADER..offset + HEADER + size]] + Chunks(b[offset + HEADER + size..])
  {
    var rest := b[offset..];
    assert rest[HEADER + size..] == b[offset + HEADER + size..];
    assert rest[HEADER..HEADER + size] == b[offset + HEADER..offset + HEADER + size];
  }

  /** `view.getUint32(offset + 4, false)` */
  method GetSize(buf: array<Byte>, offset: nat) returns (n: nat)
    requires offset + HEADER <= buf.Length
    ensures n == SizeAt(buf[..], offset)
  {
    n := BigEndian(buf[offset + 4], buf[offset + 5], buf[offset + 6], buf[offset + 7]);
    assert n == SizeField(buf[..][offset..]);
  }

  /** The view of one payload, no longer than what is left of the buffer. */
  method PayloadView(buf: array<Byte>, offset: nat, size: nat) returns (chunk: seq<Byte>)
    requires offset < buf.Length - HEADER
    ensures chunk == Chunk(buf[..], offset + HEADER, offset + HEADER + size)
  {
    var available := buf.Length - offset - HEADER;
    var length := if size < available then size else available;
    chunk := buf[offset + HEADER..offset + HEADER + length];
  }

  method ParseDockerLogs(buf: array<Byte>) returns (lines: seq<seq<Byte>>)
    ensures lines == Chunks(buf[..])
  {
    lines := [];
    var offset := 0;
    ghost var b := buf[..];
    ghost var all := Chunks(b);
    assert b[0..] == b;
    while offset < buf.Length - HEADER
      invariant 0 <= offset
      invariant all == lines + ChunksFrom(b, offset)
      decreases buf.Length - offset
    {
      var size := GetSize(buf, offset);
      ChunkStep(all, lines, b, offset, size);
      if size == 0 {
        offset := offset + HEADER;
        continue;
      }
      var chunk := PayloadView(buf, offset, size);
      lines := lines + [chunk];
      offset := offset + HEADER + size;
    }
  }

  // ---- the encoder -----------------------------------------------------------------------------

  /** A frame: the stream type and padding bytes, which the parser never reads, and the payload. */
  datatype Frame = Frame(lead: seq<Byte>, payload: seq<Byte>)

  predicate Encodable(f: Frame) {
    |f.lead| == 4 && |f.payload| < 0x1_0000_0000
  }

  predicate AllEncodable(frames: seq<Frame>) {
    forall i | 0 <= i < |frames| :: Encodable(frames[i])
  }

  function EncodeFrame(f: Frame): (b: seq<Byte>)
    requires Encodable(f)
    ensures |b| == HEADER + |f.payload|
  {
    f.lead + SizeBytes(|f.payload|) + f.payload
  }

  function Encode(frames: seq<Frame>): seq<Byte>
    requires AllEncodable(frames)
  {
    if frames == [] then [] else EncodeFrame(frames[0]) + Encode(frames[1..])
  }

  /** The pieces of payload inside the first `n` bytes of the stream, one per frame that has any. */
  function PayloadWithin(frames: seq<Frame>, n: int): seq<seq<Byte>> {
    if frames == [] || n <= HEADER then []
    else
      var p := frames[0].payload;
      var rest := PayloadWithin(frames[1..], n - HEADER - |p|);
      if n < HEADER + |p| then [p[..n - HEADER]] else (if p == [] then [] else [p]) + rest
  }

  lemma HeaderOf(f: Frame, rest: seq<Byte>, n: nat)
    requires Encodable(f) && HEADER < n <= |EncodeFrame(f) + rest|
    ensures SizeField((EncodeFrame(f) + rest)[..n]) == |f.payload|
    ensures (EncodeFrame(f) + rest)[..n][HEADER..] == (f.payload + rest)[..n - HEADER]
  {
    var whole := EncodeFrame(f) + rest;
    var header := f.lead + SizeBytes(|f.payload|);
    assert whole == header + (f.payload + rest);
    assert header[4..8] == SizeBytes(|f.payload|);
    assert whole[..n][4..8] == whole[4..8] == header[4..8];
    SizeRoundTrip(whole[..n], |f.payload|);
  }

  /** What is parsed first, in terms of the bytes behind the header. */
  lemma FirstChunk(b: seq<Byte>, p: seq<Byte>, tail: seq<Byte>)
    requires |b| > HEADER && SizeField(b) == |p| && b[HEADER..] == p + tail
    ensures Chunks(b) == (if p == [] then [] else [p]) + Chunks(tail)
  {
    assert b[HEADER..HEADER + |p|] == p && b[HEADER + |p|..] == tail;
  }

  lemma CutChunk(b: seq<Byte>)
    requires |b| > HEADER && HEADER + SizeField(b) > |b|
    ensures Chunks(b) == [b[HEADER..]]
  {
  }

  lemma FrameThenRest(f: Frame, rest: seq<Byte>, n: nat)
    requires Encodable(f) && HEADER < n <= |EncodeFrame(f) + rest|
    ensures Chunks((EncodeFrame(f) + rest)[..n]) ==
            if n < HEADER + |f.payload| then [f.payload[..n - HEADER]]
            else (if f.payload == [] then [] else [f.payload]) + Chunks(rest[..n - HEADER - |f.payload|])
  {
    var b, p := (EncodeFrame(f) + rest)[..n], f.payload;
    HeaderOf(f, rest, n);
    BodyOf(p, rest, n - HEADER);
    if n < HEADER + |p| {
      CutChunk(b);
    } else {
      FirstChunk(b, p, rest[..n - HEADER - |p|]);
    }
  }

  lemma BodyOf(p: seq<Byte>, rest: seq<Byte>, m: nat)
    requires m <= |p + rest|
    ensures (p + rest)[..m] == if m < |p| then p[..m] else p + rest[..m - |p|]
  {
  }

  lemma PrefixStep(frames: seq<Frame>, n: nat)
    requires AllEncodable(frames) && frames != [] && HEADER < n <= |Encode(frames)|
    requires var left := n - HEADER - |frames[0].payload|;
             left >= 0 ==> Chunks(Encode(frames[1..])[..left]) == PayloadWithin(frames[1..], left)
    ensures Chunks(Encode(frames)[..n]) == PayloadWithin(frames, n)
  {
    FrameThenRest(frames[0], Encode(frames[1..]), n);
  }

  /** Any prefix of an encoded stream, cut anywhere, parses to exactly the payload it contains. */
  lemma {:induction false} PrefixParses(frames: seq<Frame>, n: nat)
    requires AllEncodable(frames)
    requires n <= |Encode(frames)|
    ensures Chunks(Encode(frames)[..n]) == PayloadWithin(frames, n)
    decreases |frames|
  {
    if n > HEADER {
      var left := n - HEADER - |frames[0].payload|;
      if left >= 0 {
        assert |Encode(frames)| == HEADER + |frames[0].payload| + |Encode(frames[1..])|;
        PrefixParses(frames[1..], left);
      }
      PrefixStep(frames, n);
    }
  }

  function Joined(chunks: seq<seq<Byte>>): seq<Byte> {
    if chunks == [] then [] else chunks[0] + Joined(chunks[1..])
  }

  function AllPayload(frames: seq<Frame>): seq<Byte> {
    if frames == [] then [] else frames[0].payload + AllPayload(frames[1..])
  }

  lemma JoinedStep(p: seq<Byte>, rest: seq<seq<Byte>>)
    ensures Joined((if p == [] then [] else [p]) + rest) == p + Joined(rest)
  {
    if p == [] {
      assert [] + rest == rest;
    } else {
      assert ([p] + rest)[1..] == rest;
    }
  }

  lemma {:induction false} EverythingWithin(frames: seq<Frame>)
    requires AllEncodable(frames)
    ensures Joined(PayloadWithin(frames, |Encode(frames)|)) == AllPayload(frames)
    decreases |frames|
  {
    if frames != [] {
      var p, rest := frames[0].payload, PayloadWithin(frames[1..], |Encode(frames[1..])|);
      EverythingWithin(frames[1..]);
      assert |Encode(frames)| == HEADER + |p| + |Encode(frames[1..])|;
      JoinedStep(p, rest);
      if |Encode(frames)| > HEADER {
        assert PayloadWithin(frames, |Encode(frames)|) == (if p == [] then [] else [p]) + rest;
      }
    }
  }

  /** Parsing undoes encoding: the joined text is the concatenation of all payloads. */
  lemma ParseUndoesEncode(frames: seq<Frame>)
    requires AllEncodable(frames)
    ensures Joined(Chunks(Encode(frames))) == AllPayload(frames)
  {
    PrefixParses(frames, |Encode(frames)|);
    assert Encode(frames)[..|Encode(frames)|] == Encode(frames);
    EverythingWithin(frames);
  }

  // ---- arbitrary bytes -------------------------------------------------------------------------

  function Zeros(n: nat): seq<Byte> {
    seq(n, _ => 0)
  }

  /** The frames an arbitrary buffer stands for, the last one completed with zeros. */
  function FramesOf(b: seq<Byte>): (frames: seq<Frame>)
    ensures AllEncodable(frames)
    decreases |b|
  {
    if b == [] then []
    else
      var padded := if |b| < HEADER then b + Zeros(HEADER - |b|) else b;
      var size := SizeField(padded);
      if HEADER + size <= |b| then
        [Frame(b[..4], b[HEADER..HEADER + size])] + FramesOf(b[HEADER + size..])
      else
        [Frame(padded[..4], padded[HEADER..] + Zeros(HEADER + size - |padded|))]
  }

  lemma EncodeParsed(b: seq<Byte>, tail: seq<Byte>)
    requires |b| >= HEADER && SizeField(b) == |b| - HEADER + |tail|
    ensures Encodable(Frame(b[..4], b[HEADER..] + tail))
    ensures EncodeFrame(Frame(b[..4], b[HEADER..] + tail)) == b + tail
  {
    SizeRoundTrip(b, SizeField(b));
    assert b == b[..4] + b[4..8] + b[HEADER..];
  }

  lemma WholeFrameFirst(b: seq<Byte>)
    requires |b| >= HEADER && HEADER + SizeField(b) <= |b|
    ensures var n := HEADER + SizeField(b);
            Encode(FramesOf(b)) == b[..n] + Encode(FramesOf(b[n..]))
  {
    var n, frames := HEADER + SizeField(b), FramesOf(b);
    var head := b[..n];
    EncodeParsed(head, []);
    assert head[..4] == b[..4] && head[HEADER..] + [] == b[HEADER..n] && head + [] == head;
    assert frames[0] == Frame(b[..4], b[HEADER..n]) && frames[1..] == FramesOf(b[n..]);
  }

  lemma LastFrame(b: seq<Byte>)
    requires b != [] && (|b| >= HEADER ==> HEADER + SizeField(b) > |b|)
    ensures b <= Encode(FramesOf(b))
  {
    var padded := if |b| < HEADER then b + Zeros(HEADER - |b|) else b;
    var frames, tail := FramesOf(b), Zeros(HEADER + SizeField(padded) - |padded|);
    EncodeParsed(padded, tail);
    EncodeSingle(Frame(padded[..4], padded[HEADER..] + tail));
    assert frames == [Frame(padded[..4], padded[HEADER..] + tail)];
    assert Encode(frames) == padded + tail;
    assert b <= padded;
  }

  lemma EncodeSingle(f: Frame)
    requires Encodable(f)
    ensures Encode([f]) == EncodeFrame(f)
  {
    assert [f][1..] == [];
  }

  lemma {:induction false} StreamOf(b: seq<Byte>)
    ensures b <= Encode(FramesOf(b))
    decreases |b|
  {
    if |b| >= HEADER && HEADER + SizeField(b) <= |b| {
      var n := HEADER + SizeField(b);
      WholeFrameFirst(b);
      StreamOf(b[n..]);
      assert b == b[..n] + b[n..];
    } else if b != [] {
      LastFrame(b);
    }
  }

  /** Every byte sequence is a prefix of an encoded stream, so the parse of any buffer, however it was
      cut or corrupted, is the payload of the frames its headers announce. */
  lemma EveryBufferIsAPrefix(b: seq<Byte>)
    ensures b <= Encode(FramesOf(b))
    ensures Chunks(b) == PayloadWithin(FramesOf(b), |b|)
  {
    StreamOf(b);
    assert Encode(FramesOf(b))[..|b|] == b;
    PrefixParses(FramesOf(b), |b|);
  }
}

/** Several message parts as one message: each part behind its size, one byte or 0xFF and four. The
    encoder makes two passes, one that adds up sizes and one that fills the message; the decoder is one
    loop over the bytes. */
module MultipartCodec {
  import opened Wrappers

  type Byte = b: int | 0 <= b < 256
  type Bytes = seq<Byte>

  const MARK: Byte := 0xFF
  const MAX_SIZE: nat := 0xFFFF_FFFF

  // ---------------------------------------------------------------- format

  /** A 32-bit number, most significant byte first. */
  function BigEndian(n: nat): (r: Bytes)
    requires n <= MAX_SIZE
    ensures |r| == 4
  {
    [n / 0x100_0000, n / 0x1_0000 % 0x100, n / 0x100 % 0x100, n % 0x100]
  }

  function NumberOf(b: Bytes): (r: nat)
    requires |b| == 4
    ensures r <= MAX_SIZE
  {
    var b0: nat, b1: nat, b2: nat, b3: nat := b[0], b[1], b[2], b[3];
    b0 * 0x100_0000 + b1 * 0x1_0000 + b2 * 0x100 + b3
  }

  lemma BigEndianInverse(n: nat, b: Bytes)
    requires n <= MAX_SIZE && |b| == 4
    ensures NumberOf(BigEndian(n)) == n && BigEndian(NumberOf(b)) == b
  {
    assert n / 0x100 / 0x100 == n / 0x1_0000 && n / 0x1_0000 / 0x100 == n / 0x100_0000;
    var m: nat, b0: nat, b1: nat, b2: nat := NumberOf(b), b[0], b[1], b[2];
    assert m / 0x100 == b0 * 0x1_0000 + b1 * 0x100 + b2;
    assert m / 0x1_0000 == b0 * 0x100 + b1;
    assert m / 0x100_0000 == b0;
  }

  /** In network order the most significant byte comes first. */
  lemma NetworkOrder(b0: Byte, b1: Byte, b2: Byte, b3: Byte)
    ensures var n := ((b0 * 0x100 + b1) * 0x100 + b2) * 0x100 + b3;
            n <= MAX_SIZE && BigEndian(n) == [b0, b1, b2, b3] && NumberOf([b0, b1, b2, b3]) == n
  {
    var high := b0 * 0x100 + b1;
    var upper := high * 0x100 + b2;
    var n := upper * 0x100 + b3;
    assert high / 0x100 == b0 && high % 0x100 == b1;
    assert upper / 0x100 == high && upper % 0x100 == b2;
    assert n / 0x100 == upper && n % 0x100 == b3;
    assert n / 0x1_0000 == n / 0x100 / 0x100 && n / 0x100_0000 == n / 0x1_0000 / 0x100;
  }

  function Frame(part: Bytes): Bytes
    requires |part| <= MAX_SIZE
  {
    (if |part| < 0xFF then [|part|] else [MARK] + BigEndian(|part|)) + part
  }

  predicate Fits(parts: seq<Bytes>) {
    forall i | 0 <= i < |parts| :: |parts[i]| <= MAX_SIZE
  }

  function Frames(parts: seq<Bytes>): Bytes
    requires Fits(parts)
  {
    if parts == [] then [] else Frame(parts[0]) + Frames(parts[1..])
  }

  /** One frame in front of `rest`; the long form may be used for a short part. */
  ghost predicate IsFrame(frame: Bytes, part: Bytes) {
    (|part| < 0xFF && frame == [|part|] + part) || (|part| <= MAX_SIZE && frame == [MARK] + BigEndian(|part|) + part)
  }

  function Flatten(frames: seq<Bytes>): Bytes {
    if frames == [] then [] else frames[0] + Flatten(frames[1..])
  }

  ghost predicate AreFrames(frames: seq<Bytes>, parts: seq<Bytes>) {
    |frames| == |parts| && forall i | 0 <= i < |parts| :: IsFrame(frames[i], parts[i])
  }

  /** The part at the front of `b` and how far it goes. */
  function ReadPart(b: Bytes): (r: Option<(Bytes, nat)>)
    requires b != []
    ensures r.Some? ==> 0 < r.value.1 <= |b|
  {
    if b[0] == MARK && |b| < 5 then None
    else
      var (size, at) := if b[0] != MARK then (b[0], 1) else (NumberOf(b[1..5]), 5);
      if |b| - at < size then None else Some((b[at..at + size], at + size))
  }

  function Decoded(b: Bytes): Option<seq<Bytes>> {
    if b == [] then Some([])
    else
      match ReadPart(b)
      case None => None
      case Some((part, n)) =>
        match Decoded(b[n..])
        case None => None
        case Some(parts) => Some([part] + parts)
  }

  // ---------------------------------------------------------------- results

  /** A frame is read as its part, whatever follows it. */
  lemma FrameIsRead(frame: Bytes, part: Bytes, rest: Bytes)
    requires IsFrame(frame, part)
    ensures frame != [] && ReadPart(frame + rest) == Some((part, |frame|))
  {
    var b := frame + rest;
    if |part| < 0xFF && frame == [|part|] + part {
      assert b[1..1 + |part|] == part;
    } else {
      assert b[1..5] == BigEndian(|part|);
      BigEndianInverse(|part|, BigEndian(0));
      assert b[5..5 + |part|] == part;
    }
  }

  /** What is read is a frame. */
  lemma ReadIsFrame(b: Bytes)
    requires b != [] && ReadPart(b).Some?
    ensures IsFrame(b[..ReadPart(b).value.1], ReadPart(b).value.0)
  {
    var (part, n) := ReadPart(b).value;
    if b[0] != MARK {
      assert b[..n] == [b[0]] + part;
    } else {
      BigEndianInverse(0, b[1..5]);
      assert b[..n] == [MARK] + b[1..5] + part;
    }
  }

  /** Frames one behind the other are decoded to their parts. */
  lemma {:induction false} FramesAreDecoded(frames: seq<Bytes>, parts: seq<Bytes>)
    requires AreFrames(frames, parts)
    ensures Decoded(Flatten(frames)) == Some(parts)
    decreases |parts|
  {
    if parts != [] {
      var rest := Flatten(frames[1..]);
      FrameIsRead(frames[0], parts[0], rest);
      assert (frames[0] + rest)[|frames[0]|..] == rest;
      FramesAreDecoded(frames[1..], parts[1..]);
      assert [parts[0]] + parts[1..] == parts;
    }
  }

  /** Bytes that are decoded are frames one behind the other, to the last byte. */
  lemma {:induction false} DecodedAreFrames(b: Bytes) returns (frames: seq<Bytes>)
    requires Decoded(b).Some?
    ensures Flatten(frames) == b && AreFrames(frames, Decoded(b).value)
    decreases |b|
  {
    hide ReadPart, IsFrame, BigEndian;
    if b == [] {
      frames := [];
    } else {
      var n := ReadPart(b).value.1;
      ReadIsFrame(b);
      var more := DecodedAreFrames(b[n..]);
      frames := [b[..n]] + more;
      assert frames[1..] == more && b[..n] + b[n..] == b;
    }
  }

  /** Decoding accepts exactly the sequences of whole frames. */
  lemma DecodesFrames(b: Bytes, parts: seq<Bytes>)
    ensures Decoded(b) == Some(parts) <==> exists frames :: Flatten(frames) == b && AreFrames(frames, parts)
  {
    if Decoded(b) == Some(parts) {
      var frames := DecodedAreFrames(b);
    }
    forall frames | Flatten(frames) == b && AreFrames(frames, parts) ensures Decoded(b) == Some(parts) {
      FramesAreDecoded(frames, parts);
    }
  }

  lemma {:induction false} FramesFlatten(parts: seq<Bytes>) returns (frames: seq<Bytes>)
    requires Fits(parts)
    ensures Flatten(frames) == Frames(parts) && AreFrames(frames, parts)
    decreases |parts|
  {
    if parts == [] {
      frames := [];
    } else {
      var more := FramesFlatten(parts[1..]);
      frames := [Frame(parts[0])] + more;
      assert frames[1..] == more;
    }
  }

  /** What was encoded is decoded to the same parts. */
  lemma {:induction false} RoundTrip(parts: seq<Bytes>)
    requires Fits(parts)
    ensures Decoded(Frames(parts)) == Some(parts)
  {
    var frames := FramesFlatten(parts);
    FramesAreDecoded(frames, parts);
  }

  /** The encoding is the shortest of all messages that are decoded to the parts. */
  lemma {:induction false} EncodingIsShortest(b: Bytes)
    requires Decoded(b).Some?
    ensures Fits(Decoded(b).value) && |Frames(Decoded(b).value)| <= |b|
  {
    var frames := DecodedAreFrames(b);
    ShortestFrames(frames, Decoded(b).value);
  }

  lemma {:induction false} ShortestFrames(frames: seq<Bytes>, parts: seq<Bytes>)
    requires AreFrames(frames, parts)
    ensures Fits(parts) && |Frames(parts)| <= |Flatten(frames)|
    decreases |parts|
  {
    if parts != [] {
      ShortestFrames(frames[1..], parts[1..]);
      assert parts == [parts[0]] + parts[1..];
    }
  }

  // ---------------------------------------------------------------- the loops

  method WriteNetworkOrder(buf: array<Byte>, at: nat, value: nat)
    requires at + 4 <= buf.Length && value <= MAX_SIZE
    modifies buf
    ensures buf[at..at + 4] == BigEndian(value)
    ensures forall i | 0 <= i < buf.Length && !(at <= i < at + 4) :: buf[i] == old(buf[i])
  {
    buf[at] := value / 0x100_0000 % 0x100;
    buf[at + 1] := value / 0x1_0000 % 0x100;
    buf[at + 2] := value / 0x100 % 0x100;
    buf[at + 3] := value % 0x100;
  }

  method ReadNetworkOrder(buf: array<Byte>, at: nat) returns (value: nat)
    requires at + 4 <= buf.Length
    ensures value == NumberOf(buf[at..at + 4])
  {
    var b0: nat, b1: nat, b2: nat, b3: nat := buf[at], buf[at + 1], buf[at + 2], buf[at + 3];
    value := b0 * 0x100_0000 + b1 * 0x1_0000 + b2 * 0x100 + b3;
  }

  method Copy(part: Bytes, buf: array<Byte>, at: nat)
    requires at + |part| <= buf.Length
    modifies buf
    ensures buf[at..at + |part|] == part
    ensures forall i | 0 <= i < buf.Length && !(at <= i < at + |part|) :: buf[i] == old(buf[i])
  {
    var k := 0;
    while k < |part|
      invariant k <= |part| && forall i | 0 <= i < k :: buf[at + i] == part[i]
      invariant forall i | 0 <= i < buf.Length && !(at <= i < at + |part|) :: buf[i] == old(buf[i])
    {
      buf[at + k] := part[k];
      k := k + 1;
    }
  }

  /** The first pass: the size of the message, or the refusal of a part that is too large. */
  method SizeOf(parts: seq<Bytes>) returns (size: Option<nat>)
    ensures size == if Fits(parts) then Some(|Frames(parts)|) else None
  {
    var total: nat, i: nat := 0, 0;
    assert parts[0..] == parts;
    while i < |parts|
      invariant i <= |parts| && (forall k | 0 <= k < i :: |parts[k]| <= MAX_SIZE)
      invariant Fits(parts) ==> total + |Frames(parts[i..])| == |Frames(parts)|
    {
      if |parts[i]| > MAX_SIZE {
        return None;
      }
      assert parts[i..][1..] == parts[i + 1..];
      total := total + |parts[i]| + if |parts[i]| < 0xFF then 1 else 5;
      i := i + 1;
    }
    size := Some(total);
  }

  /** One part behind what has been written up to `at`. */
  method WriteFrame(part: Bytes, buf: array<Byte>, at: nat) returns (next: nat)
    requires |part| <= MAX_SIZE && at + |Frame(part)| <= buf.Length
    modifies buf
    ensures next == at + |Frame(part)| && buf[..next] == old(buf[..at]) + Frame(part)
  {
    hide BigEndian, NumberOf, Frames;
    var start := at;
    if |part| < 0xFF {
      buf[start] := |part|;
      start := start + 1;
    } else {
      buf[start] := MARK;
      start := start + 1;
      WriteNetworkOrder(buf, start, |part|);
      start := start + 4;
    }
    ghost var head := buf[at..start];
    assert head == if |part| < 0xFF then [|part|] else [MARK] + BigEndian(|part|);
    Copy(part, buf, start);
    next := start + |part|;
    assert buf[..at] == old(buf[..at]) && buf[at..start] == head;
    assert buf[..next] == buf[..at] + (buf[at..start] + buf[start..next]);
  }

  /** `encode`: fails on a part that is too large, and otherwise fills a message of exactly the size that
      the first pass computed. */
  method Encode(parts: seq<Bytes>) returns (encoded: Option<array<Byte>>)
    ensures encoded.Some? <==> Fits(parts)
    ensures encoded.Some? ==> fresh(encoded.value) && encoded.value[..] == Frames(parts)
  {
    hide Frame, BigEndian;
    var size := SizeOf(parts);
    if size.None? {
      return None;
    }
    var message := new Byte[size.value];
    var at: nat, i: nat := 0, 0;
    assert parts[0..] == parts;
    while i < |parts|
      invariant i <= |parts| && at + |Frames(parts[i..])| == message.Length
      invariant message[..at] + Frames(parts[i..]) == Frames(parts)
    {
      assert parts[i..][1..] == parts[i + 1..];
      ghost var before := message[..at];
      at := WriteFrame(parts[i], message, at);
      assert before + (Frame(parts[i]) + Frames(parts[i + 1..])) == (before + Frame(parts[i])) + Frames(parts[i + 1..]);
      i := i + 1;
    }
    assert message[..] == message[..at];
    encoded := Some(message);
  }

  /** One round of `decode`, from `source`. */
  method TakePart(encoded: array<Byte>, source: nat) returns (part: Option<Bytes>, next: nat)
    requires source < encoded.Length
    ensures ReadPart(encoded[source..]) == if part.Some? then Some((part.value, next - source)) else None
    ensures part.Some? ==> source < next <= encoded.Length
  {
    ghost var b := encoded[source..];
    var limit := encoded.Length;
    var at: nat, size: nat := source + 1, encoded[source];
    part, next := None, source;
    if size == MARK {
      if limit - at < 4 {
        return;
      }
      size := ReadNetworkOrder(encoded, at);
      assert encoded[at..at + 4] == b[1..5];
      at := at + 4;
    }
    if limit - at < size {
      return;
    }
    part, next := Some(encoded[at..at + size]), at + size;
    assert part.value == b[at - source..at - source + size];
  }

  /** `decode`: the parts, or the refusal of bytes that are not whole frames. */
  method Decode(encoded: array<Byte>) returns (parts: Option<seq<Bytes>>)
    ensures parts == Decoded(encoded[..])
  {
    hide ReadPart, Before;
    var source: nat, limit: nat := 0, encoded.Length;
    var found: seq<Bytes> := [];
    ghost var all := encoded[..];
    assert all[0..] == all;
    FoundNothing(Decoded(all));
    while source < limit
      invariant source <= limit && all == encoded[..]
      invariant Decoded(all) == Before(found, Decoded(all[source..]))
    {
      assert all[source..] == encoded[source..];
      var part, next := TakePart(encoded, source);
      if part.None? {
        BeforeEnds(found);
        return None;
      }
      assert all[source..][next - source..] == all[next..];
      BeforeMore(found, part.value, Decoded(all[next..]));
      found := found + [part.value];
      source := next;
    }
    BeforeEnds(found);
    assert all[source..] == [];
    parts := Some(found);
  }

  lemma BeforeEnds(found: seq<Bytes>)
    ensures Before(found, None) == None && Before(found, Some([])) == Some(found)
  {
    assert found + [] == found;
  }

  /** Parts found earlier, in front of the rest. */
  function Before(found: seq<Bytes>, rest: Option<seq<Bytes>>): Option<seq<Bytes>> {
    match rest
    case None => None
    case Some(parts) => Some(found + parts)
  }

  lemma FoundNothing(rest: Option<seq<Bytes>>)
    ensures Before([], rest) == rest
  {
    if rest.Some? {
      assert [] + rest.value == rest.value;
    }
  }

  lemma BeforeMore(found: seq<Bytes>, part: Bytes, rest: Option<seq<Bytes>>)
    ensures Before(found, if rest.None? then None else Some([part] + rest.value)) == Before(found + [part], rest)
  {
    if rest.Some? {
      assert found + ([part] + rest.value) == (found + [part]) + rest.value;
    }
  }
}

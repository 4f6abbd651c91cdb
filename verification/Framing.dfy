/**
  The byte-level framing of src/DigiMesh: the frame layout written by the two frame builders, and the
  incremental deframer of DigiMeshRadio::ReceiveData as a function of the buffered bytes.
*/
module DigiMeshFraming {

  import opened ChunkedReading

  const START_BYTE: byte := 0x7E

  /** The longest payload whose length plus 4 still fits the deframer's 16-bit packet length. */
  const MAX_PAYLOAD := 65531

  // ---------------------------------------------------------------------------------------------
  // Layout

  function Sum(bytes: seq<byte>): (s: int)
    ensures s >= 0
  {
    if bytes == [] then 0 else Sum(bytes[..|bytes| - 1]) + bytes[|bytes| - 1]
  }

  function Checksum(payload: seq<byte>): byte { (0xFF - Sum(payload)) % 256 }

  /** Start byte, 16-bit big-endian length, payload, checksum. */
  function Frame(payload: seq<byte>): (f: seq<byte>)
    ensures |f| == |payload| + 4
  {
    [START_BYTE, |payload| / 256 % 256, |payload| % 256] + payload + [Checksum(payload)]
  }

  // ---------------------------------------------------------------------------------------------
  // Deframer

  /** What the deframer finds at the head of the buffer. */
  datatype Scan =
    | NeedMore
    | Skip
    | Malformed                                            // the 16-bit packet length wrapped around
    | Packet(data: seq<byte>, intact: bool, size: nat)

  function BigEndian16(high: byte, low: byte): int { high as int * 256 + low as int }

  /** The 16-bit packet length that the deframer computes from the length field. */
  function PacketLength(high: byte, low: byte): nat { (BigEndian16(high, low) + 4) % 0x1_0000 }

  lemma PacketLengthIs(high: byte, low: byte)
    ensures var n := BigEndian16(high, low); PacketLength(high, low) == if n <= MAX_PAYLOAD then n + 4 else n - 65532
  {
  }

  /** The checksum byte and the data add up to 0xFF, in 8 bits. */
  predicate IsChecked(checksum: byte, data: seq<byte>) { (checksum + Sum(data)) % 256 == 0xFF }

  function ScanHead(buf: seq<byte>): (s: Scan)
    ensures s.Skip? ==> |buf| >= 3
    ensures s.Packet? ==> 4 <= s.size <= |buf| && s.data == buf[3..s.size - 1]
  {
    if |buf| < 3 then NeedMore
    else if buf[0] != START_BYTE then Skip
    else
      var size := PacketLength(buf[1], buf[2]);
      if |buf| < size then NeedMore
      else if size < 4 then Malformed
      else Packet(buf[3..size - 1], IsChecked(buf[size - 1], buf[3..size - 1]), size)
  }

  /** How the switch on the frame type treats a packet that passed the checksum. */
  datatype Verdict = Deliver | DeliverThenThrow | Ignore | Throw | Undefined

  type Dispatcher = seq<byte> -> Verdict

  function Head(buf: seq<byte>, dispatch: Dispatcher): (step: Step)
    ensures step.Consume? ==> 1 <= step.size <= |buf|
  {
    match ScanHead(buf)
    case NeedMore => Wait
    case Skip => Consume(1, [], false)
    case Malformed => Crash
    case Packet(data, intact, size) =>
      if !intact then Consume(size, [], false)
      else
        match dispatch(data)
        case Deliver => Consume(size, [data], false)
        case DeliverThenThrow => Consume(size, [data], true)
        case Ignore => Consume(size, [], false)
        case Throw => Consume(size, [], true)
        case Undefined => Crash
  }

  lemma IsCheckedExactly(checksum: byte, data: seq<byte>)
    ensures IsChecked(checksum, data) <==> checksum == Checksum(data)
  {
    var s := Sum(data);
    assert 0xFF - s == (0xFF - s) / 256 * 256 + (0xFF - s) % 256;
    assert Checksum(data) + s == 0xFF - (0xFF - s) / 256 * 256;
  }

  lemma {:induction false} SumOfParts(a: seq<byte>, b: seq<byte>)
    ensures Sum(a + b) == Sum(a) + Sum(b)
    ensures |b| == 1 ==> Sum(b) == b[0]
    decreases |b|
  {
    if b == [] {
      assert a + b == a;
    } else {
      var n := |b| - 1;
      assert (a + b)[..|a| + n] == a + b[..n];
      SumOfParts(a, b[..n]);
      assert |b| == 1 ==> b[..n] == [];
    }
  }

  lemma LengthBytes(n: nat)
    requires n <= 0xFFFF
    ensures BigEndian16(n / 256 % 256, n % 256) == n
    ensures n <= MAX_PAYLOAD ==> PacketLength(n / 256 % 256, n % 256) == n + 4
  {
    PacketLengthIs(n / 256 % 256, n % 256);
  }

  /** A frame as it is on the wire; payload and checksum add up to 0xFF. */
  lemma FrameLayout(payload: seq<byte>)
    requires |payload| <= 0xFFFF
    ensures var f, n := Frame(payload), |payload|;
            && |f| == n + 4
            && f[0] == 0x7E && f[1] as int * 256 + f[2] as int == n && f[3..n + 3] == payload
            && Sum(f[3..]) % 256 == 0xFF
  {
    var f, n := Frame(payload), |payload|;
    assert f[3..n + 3] == payload;
    assert f[3..] == payload + [Checksum(payload)];
    SumOfParts(payload, [Checksum(payload)]);
    IsCheckedExactly(Checksum(payload), payload);
  }

  /** Appending bytes does not change what was already decided about the head of the buffer. */
  lemma ScanIsStable(buf: seq<byte>, more: seq<byte>)
    requires !ScanHead(buf).NeedMore?
    ensures ScanHead(buf + more) == ScanHead(buf)
  {
    hide IsChecked;
    assert (buf + more)[..|buf|] == buf;
    if ScanHead(buf).Packet? {
      var size := ScanHead(buf).size;
      assert (buf + more)[3..size - 1] == buf[3..size - 1];
    }
  }

  /** The head of the buffer is decided by its first three bytes and the bytes of the packet. */
  lemma ScanIsLocal(buf: seq<byte>, more: seq<byte>)
    requires |buf| >= LOOK_AHEAD
    requires ScanHead(buf + more).Skip? || (ScanHead(buf + more).Packet? && ScanHead(buf + more).size <= |buf|)
    ensures ScanHead(buf) == ScanHead(buf + more)
  {
    hide IsChecked;
    assert (buf + more)[..|buf|] == buf;
    if ScanHead(buf + more).Packet? {
      var size := ScanHead(buf + more).size;
      assert (buf + more)[3..size - 1] == buf[3..size - 1];
    }
  }

  /** The deframer with a given switch on the frame type, as a reader of chunks. */
  function Deframer(dispatch: Dispatcher): (head: Reader)
    ensures forall buf :: head(buf) == Head(buf, dispatch)
  {
    (buf: seq<byte>) => Head(buf, dispatch)
  }

  /** One iteration of the receive loop, case by case. */
  lemma DeframeByScan(buf: seq<byte>, dispatch: Dispatcher)
    ensures Deframe(buf, dispatch) ==
      match ScanHead(buf)
      case NeedMore => Reception([], Waiting(buf))
      case Skip => Deframe(buf[1..], dispatch)
      case Malformed => Reception([], Lost)
      case Packet(data, intact, size) =>
        if !intact then Deframe(buf[size..], dispatch)
        else
          match dispatch(data)
          case Deliver => After([data], Deframe(buf[size..], dispatch))
          case DeliverThenThrow => Reception([data], Threw(buf[size..]))
          case Ignore => Deframe(buf[size..], dispatch)
          case Throw => Reception([], Threw(buf[size..]))
          case Undefined => Reception([], Lost)
  {
    var step := Head(buf, dispatch);
    if step.Consume? && step.delivered == [] {
      assert [] + Deframe(buf[step.size..], dispatch).frames == Deframe(buf[step.size..], dispatch).frames;
    }
  }

  lemma HeadIsStable(buf: seq<byte>, more: seq<byte>, dispatch: Dispatcher)
    requires !Head(buf, dispatch).Wait?
    ensures Head(buf + more, dispatch) == Head(buf, dispatch)
  {
    ScanIsStable(buf, more);
  }

  lemma HeadIsLocal(buf: seq<byte>, more: seq<byte>, dispatch: Dispatcher)
    requires Head(buf + more, dispatch).Consume? && |buf| >= Head(buf + more, dispatch).size
    requires |buf| >= LOOK_AHEAD
    ensures Head(buf, dispatch) == Head(buf + more, dispatch)
  {
    ScanIsLocal(buf, more);
  }

  lemma DeframerIsStable(dispatch: Dispatcher)
    ensures IsStable(Deframer(dispatch))
  {
    var head := Deframer(dispatch);
    forall buf, more | !head(buf).Wait?
      ensures head(buf + more) == head(buf)
    {
      HeadIsStable(buf, more, dispatch);
    }
  }

  lemma DeframerIsLocal(dispatch: Dispatcher)
    ensures IsLocal(Deframer(dispatch))
  {
    var head := Deframer(dispatch);
    forall buf, more | head(buf + more).Consume? && |buf| >= head(buf + more).size && |buf| >= LOOK_AHEAD
      ensures head(buf) == head(buf + more)
    {
      HeadIsLocal(buf, more, dispatch);
    }
  }

  function Deframe(buf: seq<byte>, dispatch: Dispatcher): Reception {
    Receive(buf, Deframer(dispatch))
  }

  predicate IsThrowing(v: Verdict) { v.Throw? || v.DeliverThenThrow? }

  /**
    Scanning a stream from its head: the first packet whose handling throws, if the scan comes to one, has
    nothing behind it that the deframer could decide on.
  */
  predicate ThrowsLastIfAtAll(stream: seq<byte>, dispatch: Dispatcher)
    decreases |stream|
  {
    match ScanHead(stream)
    case NeedMore => true
    case Malformed => true
    case Skip => ThrowsLastIfAtAll(stream[1..], dispatch)
    case Packet(data, intact, size) =>
      if intact && IsThrowing(dispatch(data)) then ScanHead(stream[size..]).NeedMore?
      else (intact && dispatch(data).Undefined?) || ThrowsLastIfAtAll(stream[size..], dispatch)
  }

  /** The packets of a stream that pass the checksum. */
  function IntactPackets(stream: seq<byte>): seq<seq<byte>>
    decreases |stream|
  {
    match ScanHead(stream)
    case NeedMore => []
    case Malformed => []
    case Skip => IntactPackets(stream[1..])
    case Packet(data, intact, size) => (if intact then [data] else []) + IntactPackets(stream[size..])
  }

  lemma {:induction false} ThrowsLastExactly(stream: seq<byte>, dispatch: Dispatcher)
    ensures SplitDoesNotMatter(stream, Deframer(dispatch)) <==> ThrowsLastIfAtAll(stream, dispatch)
    decreases |stream|
  {
    hide Receive, ScanHead, IsChecked;
    DeframeByScan(stream, dispatch);
    var scan := ScanHead(stream);
    if scan.Skip? {
      ThrowsLastExactly(stream[1..], dispatch);
    } else if scan.Packet? {
      ThrowsLastExactly(stream[scan.size..], dispatch);
    }
  }

  lemma {:induction false} NoThrowAtAll(stream: seq<byte>, dispatch: Dispatcher)
    requires forall p | p in IntactPackets(stream) :: !IsThrowing(dispatch(p))
    ensures ThrowsLastIfAtAll(stream, dispatch)
    decreases |stream|
  {
    var scan := ScanHead(stream);
    if scan.Skip? {
      NoThrowAtAll(stream[1..], dispatch);
    } else if scan.Packet? {
      NoThrowAtAll(stream[scan.size..], dispatch);
    }
  }

  /** Chunk independence of the radio's receiver, whatever its switch does with each frame type. */
  lemma RadioChunkIndependence(stream: seq<byte>, dispatch: Dispatcher)
    ensures (forall chunks | Flatten(chunks) == stream && [] !in chunks ::
               SameEffect(ReceiveAll([], chunks, Deframer(dispatch)), Deframe(stream, dispatch)))
       <==> ThrowsLastIfAtAll(stream, dispatch)
  {
    DeframerIsStable(dispatch);
    DeframerIsLocal(dispatch);
    ChunkIndependenceExactly(stream, Deframer(dispatch));
    ThrowsLastExactly(stream, dispatch);
  }

  /** A stream none of whose intact packets throws can be split in any way. */
  lemma UnthrowingStreamSplitsFreely(stream: seq<byte>, chunks: seq<seq<byte>>, dispatch: Dispatcher)
    requires forall p | p in IntactPackets(stream) :: !IsThrowing(dispatch(p))
    requires Flatten(chunks) == stream
    ensures SameEffect(ReceiveAll([], chunks, Deframer(dispatch)), Deframe(stream, dispatch))
  {
    DeframerIsStable(dispatch);
    NoThrowAtAll(stream, dispatch);
    ThrowsLastExactly(stream, dispatch);
    assert [] + stream == stream;
    AnySplitSameEffect([], chunks, Deframer(dispatch));
  }

  // ---------------------------------------------------------------------------------------------
  // Round trip

  /** A frame on the wire with the line noise before it. */
  datatype Segment = Segment(noise: seq<byte>, payload: seq<byte>)

  predicate IsNoise(bytes: seq<byte>) { START_BYTE !in bytes }

  function Wire(s: Segment): Piece { Piece(s.noise + Frame(s.payload), s.payload) }

  function WireAll(segments: seq<Segment>): (pieces: seq<Piece>)
    ensures |pieces| == |segments| && forall i | 0 <= i < |segments| :: pieces[i] == Wire(segments[i])
  {
    seq(|segments|, i requires 0 <= i < |segments| => Wire(segments[i]))
  }

  /** Noise at the end: at most its last two bytes are kept. */
  function NoiseTail(noise: seq<byte>): seq<byte> {
    if |noise| <= 2 then noise else noise[|noise| - 2..]
  }

  lemma {:induction false} NoiseIsSkipped(noise: seq<byte>, bytes: seq<byte>, dispatch: Dispatcher)
    requires IsNoise(noise) && |bytes| >= 2
    ensures Deframe(noise + bytes, dispatch) == Deframe(bytes, dispatch)
    decreases |noise|
  {
    if noise == [] {
      assert noise + bytes == bytes;
    } else {
      assert (noise + bytes)[1..] == noise[1..] + bytes;
      NoiseIsSkipped(noise[1..], bytes, dispatch);
    }
  }

  lemma TrailingNoise(noise: seq<byte>, dispatch: Dispatcher)
    requires IsNoise(noise)
    ensures Deframe(noise, dispatch) == Reception([], Waiting(NoiseTail(noise)))
  {
    if |noise| > 2 {
      var cut := |noise| - 2;
      assert noise == noise[..cut] + noise[cut..];
      NoiseIsSkipped(noise[..cut], noise[cut..], dispatch);
    }
  }

  lemma FrameIsScanned(payload: seq<byte>, bytes: seq<byte>)
    requires |payload| <= MAX_PAYLOAD
    ensures ScanHead(Frame(payload) + bytes) == Packet(payload, true, |payload| + 4)
    ensures (Frame(payload) + bytes)[|payload| + 4..] == bytes
  {
    LengthBytes(|payload|);
    hide IsChecked, Checksum, BigEndian16, PacketLength;
    var buf, n := Frame(payload) + bytes, |payload|;
    assert PacketLength(buf[1], buf[2]) == n + 4;
    assert buf[3..n + 3] == payload;
    assert buf[n + 3] == Checksum(payload);
    IsCheckedExactly(buf[n + 3], payload);
  }

  lemma DamagedFrameIsScanned(payload: seq<byte>, checksum: byte, bytes: seq<byte>)
    requires |payload| <= MAX_PAYLOAD && !IsChecked(checksum, payload)
    ensures var buf := Frame(payload)[..|payload| + 3] + [checksum] + bytes;
            ScanHead(buf) == Packet(payload, false, |payload| + 4) && buf[|payload| + 4..] == bytes
  {
    LengthBytes(|payload|);
    hide IsChecked, Checksum, BigEndian16, PacketLength;
    var n := |payload|;
    var start: seq<byte> := [START_BYTE, n / 256 % 256, n % 256];
    assert Frame(payload)[..n + 3] == start + payload;
    var buf := start + payload + [checksum] + bytes;
    assert buf[0] == START_BYTE && PacketLength(buf[1], buf[2]) == n + 4;
    assert buf[3..n + 3] == payload && buf[n + 3] == checksum;
  }

  lemma NotIntactIsDropped(buf: seq<byte>, data: seq<byte>, size: nat, dispatch: Dispatcher)
    requires size <= |buf| && ScanHead(buf) == Packet(data, false, size)
    ensures Deframe(buf, dispatch) == Deframe(buf[size..], dispatch)
  {
    hide Receive, ScanHead;
    DeframeByScan(buf, dispatch);
  }

  /** A frame with a wrong checksum is dropped whole, and what follows it is received as if it stood alone. */
  lemma DamagedFrameIsDropped(payload: seq<byte>, checksum: byte, bytes: seq<byte>, dispatch: Dispatcher)
    requires |payload| <= MAX_PAYLOAD && checksum != Checksum(payload)
    ensures Deframe(Frame(payload)[..|payload| + 3] + [checksum] + bytes, dispatch) == Deframe(bytes, dispatch)
  {
    IsCheckedExactly(checksum, payload);
    hide Checksum, IsChecked, Frame, Deframe, ScanHead;
    DamagedFrameIsScanned(payload, checksum, bytes);
    var buf := Frame(payload)[..|payload| + 3] + [checksum] + bytes;
    NotIntactIsDropped(buf, payload, |payload| + 4, dispatch);
  }

  /** A length field of 65532 or more, which wraps the packet length to less than a frame, is not survived. */
  lemma WrappedLengthIsLost(buf: seq<byte>, dispatch: Dispatcher)
    requires |buf| >= 3 && buf[0] == 0x7E && buf[1] == 0xFF && buf[2] >= 0xFC
    ensures Deframe(buf, dispatch) == Reception([], Lost)
  {
    hide Deframe, IsChecked;
    PacketLengthIs(buf[1], buf[2]);
    assert ScanHead(buf).Malformed?;
    HeadOfMalformed(buf, dispatch);
  }

  lemma HeadOfMalformed(buf: seq<byte>, dispatch: Dispatcher)
    requires ScanHead(buf).Malformed?
    ensures Deframe(buf, dispatch) == Reception([], Lost)
  {
    hide Receive, ScanHead;
    DeframeByScan(buf, dispatch);
  }

  lemma IncompleteFrameIsScanned(payload: seq<byte>, k: nat)
    requires |payload| <= MAX_PAYLOAD && k < |payload| + 4
    ensures ScanHead(Frame(payload)[..k]).NeedMore?
  {
    LengthBytes(|payload|);
    hide IsChecked, Checksum, BigEndian16, PacketLength;
    var f, buf := Frame(payload), Frame(payload)[..k];
    if k >= 3 {
      assert buf[0] == f[0] && buf[1] == f[1] && buf[2] == f[2];
      assert PacketLength(f[1], f[2]) == |payload| + 4;
    }
  }

  /** While a frame is incomplete, nothing is erased. */
  lemma IncompleteFrameWaits(payload: seq<byte>, k: nat, dispatch: Dispatcher)
    requires |payload| <= MAX_PAYLOAD && k < |payload| + 4
    ensures Deframe(Frame(payload)[..k], dispatch) == Reception([], Waiting(Frame(payload)[..k]))
  {
    hide Receive, ScanHead, Frame;
    IncompleteFrameIsScanned(payload, k);
    DeframeByScan(Frame(payload)[..k], dispatch);
  }

  lemma FrameIsReceived(payload: seq<byte>, bytes: seq<byte>, dispatch: Dispatcher)
    requires |payload| <= MAX_PAYLOAD && dispatch(payload) == Deliver
    ensures Deframe(Frame(payload) + bytes, dispatch) == After([payload], Deframe(bytes, dispatch))
  {
    FrameIsScanned(payload, bytes);
    assert Head(Frame(payload) + bytes, dispatch) == Consume(|payload| + 4, [payload], false);
  }

  lemma SegmentIsReceived(s: Segment, more: seq<byte>, dispatch: Dispatcher)
    requires IsNoise(s.noise) && |s.payload| <= MAX_PAYLOAD && dispatch(s.payload) == Deliver
    ensures Deframe(Wire(s).bytes + more, dispatch) == After([s.payload], Deframe(more, dispatch))
  {
    var framed := Frame(s.payload) + more;
    assert Wire(s).bytes + more == s.noise + framed;
    NoiseIsSkipped(s.noise, framed, dispatch);
    FrameIsReceived(s.payload, more, dispatch);
  }

  lemma SegmentIsRecognised(s: Segment, dispatch: Dispatcher)
    requires IsNoise(s.noise) && |s.payload| <= MAX_PAYLOAD && dispatch(s.payload) == Deliver
    ensures Recognises(Deframer(dispatch), Wire(s))
  {
    var head, p := Deframer(dispatch), Wire(s);
    forall more
      ensures Receive(p.bytes + more, head) == After([p.frame], Receive(more, head))
    {
      SegmentIsReceived(s, more, dispatch);
    }
  }

  /**
    Framing round trip: frames with line noise between them, whatever bytes their payloads hold, are
    split into exactly the original payloads in order.
  */
  lemma FramesComeBack(segments: seq<Segment>, tail: seq<byte>, dispatch: Dispatcher)
    requires forall s | s in segments :: IsNoise(s.noise) && |s.payload| <= MAX_PAYLOAD
                                         && dispatch(s.payload) == Deliver
    requires IsNoise(tail)
    ensures var r := Deframe(PieceBytes(WireAll(segments)) + tail, dispatch);
            && |r.frames| == |segments|
            && (forall i | 0 <= i < |segments| :: r.frames[i] == segments[i].payload)
            && r.ending == Waiting(NoiseTail(tail))
  {
    var pieces := WireAll(segments);
    forall p | p in pieces
      ensures Recognises(Deframer(dispatch), p)
    {
      var i :| 0 <= i < |pieces| && pieces[i] == p;
      assert segments[i] in segments;
      SegmentIsRecognised(segments[i], dispatch);
    }
    PiecesAreRead(pieces, tail, Deframer(dispatch));
    TrailingNoise(tail, dispatch);
  }

  /** An intact packet at the head of the buffer is a whole frame. */
  lemma PacketIsFrame(buf: seq<byte>)
    requires ScanHead(buf).Packet? && ScanHead(buf).intact
    ensures |ScanHead(buf).data| <= MAX_PAYLOAD && ScanHead(buf).size == |ScanHead(buf).data| + 4
    ensures buf[..ScanHead(buf).size] == Frame(ScanHead(buf).data)
  {
    PacketLengthIs(buf[1], buf[2]);
    hide IsChecked, Checksum;
    var data, size := ScanHead(buf).data, ScanHead(buf).size;
    assert size == BigEndian16(buf[1], buf[2]) + 4;
    IsCheckedExactly(buf[size - 1], data);
    assert buf[..size] == [buf[0], buf[1], buf[2]] + data + [buf[size - 1]];
  }

  /** The deframer accepts a packet exactly where the buffer starts with the frame of that payload. */
  lemma AcceptedExactly(buf: seq<byte>, payload: seq<byte>)
    requires |payload| <= MAX_PAYLOAD
    ensures ScanHead(buf) == Packet(payload, true, |payload| + 4) <==> Frame(payload) <= buf
  {
    if Frame(payload) <= buf {
      assert buf == Frame(payload) + buf[|payload| + 4..];
      FrameIsScanned(payload, buf[|payload| + 4..]);
    } else if ScanHead(buf) == Packet(payload, true, |payload| + 4) {
      PacketIsFrame(buf);
    }
  }

  /** How many bytes the scan erases at the head of the buffer. */
  function Erased(buf: seq<byte>): (k: nat)
    ensures k <= |buf|
  {
    match ScanHead(buf)
    case Skip => 1
    case Packet(_, _, size) => size
    case _ => 0
  }

  lemma DeliveredNowOrLater(buf: seq<byte>, dispatch: Dispatcher, f: seq<byte>)
    requires f in Deframe(buf, dispatch).frames
    ensures Erased(buf) > 0
    ensures ScanHead(buf) == Packet(f, true, Erased(buf)) || f in Deframe(buf[Erased(buf)..], dispatch).frames
  {
    DeframeByScan(buf, dispatch);
  }

  lemma PartOfRest(buf: seq<byte>, k: nat, j: nat, n: nat)
    requires k + j + n <= |buf|
    ensures buf[k..][j..j + n] == buf[k + j..k + j + n]
  {
  }

  /** Nothing is delivered whose whole frame was not in the buffer, at some position i. */
  lemma {:induction false} DeliveredFrameWasReceived(buf: seq<byte>, dispatch: Dispatcher, f: seq<byte>)
    returns (i: nat)
    requires f in Deframe(buf, dispatch).frames
    ensures |f| <= MAX_PAYLOAD && i + |f| + 4 <= |buf|
    ensures buf[i..i + |f| + 4] == Frame(f)
    decreases |buf|
  {
    hide Deframe, Frame, Sum;
    DeliveredNowOrLater(buf, dispatch, f);
    var k := Erased(buf);
    if ScanHead(buf) == Packet(f, true, k) {
      PacketIsFrame(buf);
      i := 0;
    } else {
      var j := DeliveredFrameWasReceived(buf[k..], dispatch, f);
      i := k + j;
      PartOfRest(buf, k, j, |f| + 4);
    }
  }

  /** A payload comes back from its own frame exactly when its length fits the 16-bit packet length. */
  lemma FrameComesBackExactly(payload: seq<byte>, dispatch: Dispatcher)
    requires dispatch(payload) == Deliver
    ensures payload in Deframe(Frame(payload), dispatch).frames <==> |payload| <= MAX_PAYLOAD
  {
    if |payload| <= MAX_PAYLOAD {
      assert Frame(payload) + [] == Frame(payload);
      FrameIsReceived(payload, [], dispatch);
    } else if payload in Deframe(Frame(payload), dispatch).frames {
      var i := DeliveredFrameWasReceived(Frame(payload), dispatch, payload);
    }
  }
}

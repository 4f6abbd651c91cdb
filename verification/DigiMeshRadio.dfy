/**
  src/DigiMesh/digimesh_radio.h and .cpp, math_helper.h: the radio object with its receive buffer and its
  frame table, the two frame builders, and the receive loop.
*/
module DigiMeshRadios {
  import opened ChunkedReading
  import opened DigiMeshFraming
  import opened Division
  import FrameIds

  const FRAME_AT_COMMAND: byte := 0x08
  const FRAME_AT_COMMAND_RESPONSE: byte := 0x88
  const FRAME_REMOTE_AT_COMMAND_RESPONSE: byte := 0x97
  const FRAME_MODEM_STATUS: byte := 0x8a
  const LEGACY_TX_STATUS: byte := 0x89
  const FRAME_TRANSMIT_REQUEST: byte := 0x10
  const FRAME_TRANSMIT_STATUS: byte := 0x8b
  const FRAME_RECEIVE_PACKET: byte := 0x90
  const FRAME_EXPLICIT_RECEIVE_PACKET: byte := 0x91
  const PAYLOAD_TOO_LARGE: byte := 0x74

  const TWO_64 := 0x1_0000_0000_0000_0000

  /**
    The switch of ReceiveData on the frame type. Each handler reads its packet at fixed positions without
    a bounds check, so a packet too short for its handler is undefined behaviour.
  */
  function Dispatch(packet: seq<byte>): Verdict {
    if packet == [] then Undefined
    else if packet[0] == FRAME_AT_COMMAND_RESPONSE then
      if |packet| < 5 then Undefined else Deliver
    else if packet[0] == FRAME_REMOTE_AT_COMMAND_RESPONSE || packet[0] == FRAME_MODEM_STATUS then Ignore
    else if packet[0] == FRAME_TRANSMIT_STATUS then
      if |packet| < 6 then Undefined
      else if packet[5] == PAYLOAD_TOO_LARGE then DeliverThenThrow
      else Deliver
    else if packet[0] == LEGACY_TX_STATUS then
      if |packet| < 3 then Undefined else Ignore
    else if packet[0] == FRAME_RECEIVE_PACKET then
      if |packet| < 12 then Undefined else Deliver
    else if packet[0] == FRAME_EXPLICIT_RECEIVE_PACKET then
      if |packet| < 18 then Undefined else Deliver
    else Throw
  }

  predicate IsHandledType(b: byte) { b in [0x88, 0x89, 0x8a, 0x8b, 0x90, 0x91, 0x97] }

  predicate ReportsTooLarge(packet: seq<byte>) {
    |packet| > 5 && packet[0] == 0x8b && packet[5] == 0x74
  }

  /** Handling a packet throws exactly when its type is unknown or it reports a payload that was too large. */
  lemma ThrowingExactly(packet: seq<byte>)
    requires packet != []
    ensures IsThrowing(Dispatch(packet)) <==> !IsHandledType(packet[0]) || ReportsTooLarge(packet)
  {
  }

  /**
    Chunk independence for ordinary traffic: when every intact packet of the stream is of a handled type and none
    reports 0x74, any split into calls delivers the same frames and leaves the same buffer.
  */
  lemma HandledStreamSplitsFreely(stream: seq<byte>, chunks: seq<seq<byte>>)
    requires forall p | p in IntactPackets(stream) :: p != [] ==> IsHandledType(p[0]) && !ReportsTooLarge(p)
    requires Flatten(chunks) == stream
    ensures SameEffect(ReceiveAll([], chunks, Deframer(Dispatch)), Deframe(stream, Dispatch))
  {
    forall p | p in IntactPackets(stream)
      ensures !IsThrowing(Dispatch(p))
    {
      if p != [] { ThrowingExactly(p); }
    }
    UnthrowingStreamSplitsFreely(stream, chunks, Dispatch);
  }

  /** A packet that is handed to a handler: AT response, transmit status, received data, explicitly received data. */
  predicate IsData(p: seq<byte>) {
    || (|p| >= 5 && p[0] == 0x88)
    || (|p| >= 6 && p[0] == 0x8b && p[5] != 0x74)
    || (|p| >= 12 && p[0] == 0x90)
    || (|p| >= 18 && p[0] == 0x91)
  }

  /** A packet of which nothing comes: remote AT response, modem status, legacy transmit status. */
  predicate IsSilent(p: seq<byte>) {
    || (|p| >= 1 && (p[0] == 0x97 || p[0] == 0x8a))
    || (|p| >= 3 && p[0] == 0x89)
  }

  /** What becomes of a frame at the head of the buffer, by its type, and of what follows it. */
  lemma FrameByType(p: seq<byte>, rest: seq<byte>)
    requires |p| <= MAX_PAYLOAD
    ensures var r := Deframe(Frame(p) + rest, Dispatch);
            if IsData(p) then r == After([p], Deframe(rest, Dispatch))
            else if IsSilent(p) then r == Deframe(rest, Dispatch)
            else if ReportsTooLarge(p) then r == Reception([p], Threw(rest))
            else if p != [] && !IsHandledType(p[0]) then r == Reception([], Threw(rest))
            else r == Reception([], Lost)
  {
    hide Receive, Frame, ScanHead;
    FrameIsScanned(p, rest);
    DeframeByScan(Frame(p) + rest, Dispatch);
  }

  /** The packets of a list that are handed to handlers. */
  function DataOf(packets: seq<seq<byte>>): seq<seq<byte>> {
    if packets == [] then []
    else (if IsData(packets[0]) then [packets[0]] else []) + DataOf(packets[1..])
  }

  function OnTheWire(packets: seq<seq<byte>>): seq<byte> {
    if packets == [] then [] else Frame(packets[0]) + OnTheWire(packets[1..])
  }

  /** A stream of frames of known types: exactly the packets with data are delivered, in their order. */
  lemma {:induction false} TrafficComesBack(packets: seq<seq<byte>>, rest: seq<byte>)
    requires forall p | p in packets :: |p| <= MAX_PAYLOAD && (IsData(p) || IsSilent(p))
    ensures Deframe(OnTheWire(packets) + rest, Dispatch) == After(DataOf(packets), Deframe(rest, Dispatch))
    decreases |packets|
  {
    hide Deframe, Frame, IsData, IsSilent;
    if packets == [] {
      assert OnTheWire(packets) + rest == rest;
      assert [] + Deframe(rest, Dispatch).frames == Deframe(rest, Dispatch).frames;
    } else {
      var p, later := packets[0], OnTheWire(packets[1..]) + rest;
      assert OnTheWire(packets) + rest == Frame(p) + later;
      FrameByType(p, later);
      TrafficComesBack(packets[1..], rest);
      if IsData(p) {
        AfterIsAssociative([p], DataOf(packets[1..]), Deframe(rest, Dispatch));
      } else {
        assert DataOf(packets) == [] + DataOf(packets[1..]) == DataOf(packets[1..]);
      }
    }
  }

  /** The byte read as a signed char and converted to uint64_t. */
  function SignExtended(b: byte): int { if b < 128 then b else TWO_64 - 256 + b }

  /** MathHelper::calc_checksum over a buffer of chars, which are signed or not depending on the platform. */
  method CalcChecksum(buf: array<byte>, start: nat, end: nat, signedChars: bool) returns (checksum: byte)
    requires start <= end <= buf.Length
    ensures checksum == Checksum(buf[start..end])
  {
    SumOfNothing();
    hide Sum, SignExtended;
    var sum := 0;
    var i := start;
    assert buf[start..i] == [];
    while i < end
      invariant start <= i <= end
      invariant 0 <= sum < TWO_64 && sum % 256 == Sum(buf[start..i]) % 256
    {
      SumStep(buf[start..i], buf[start..i + 1], buf[i]);
      ChecksumStep(sum, Sum(buf[start..i]), buf[i]);
      sum := (sum + if signedChars then SignExtended(buf[i]) else buf[i]) % TWO_64;
      i := i + 1;
    }
    checksum := (0xFF - sum) % TWO_64 % 256;
    SameChecksum(sum, Sum(buf[start..end]));
  }

  lemma SumStep(bytes: seq<byte>, longer: seq<byte>, b: byte)
    requires longer == bytes + [b]
    ensures Sum(longer) == Sum(bytes) + b
  {
    assert longer[..|longer| - 1] == bytes;
  }

  lemma ReductionKeepsLowByte(x: int)
    ensures x % TWO_64 % 256 == x % 256
  {
    var q, r := x / TWO_64, x % TWO_64;
    assert x == q * TWO_64 + r;
    assert x == 256 * (q * 0x100_0000_0000_0000) + r;
    LowByteShift(r, q * 0x100_0000_0000_0000);
  }

  lemma LowByteShift(r: int, k: int)
    ensures (256 * k + r) % 256 == r % 256
  {
  }

  /** Reading the byte as signed or unsigned makes no difference to the sum modulo 256. */
  lemma ChecksumStep(sum: int, exact: int, b: byte)
    requires sum % 256 == exact % 256
    ensures (sum + SignExtended(b)) % TWO_64 % 256 == (exact + b) % 256
    ensures (sum + b) % TWO_64 % 256 == (exact + b) % 256
  {
    ReductionKeepsLowByte(sum + SignExtended(b));
    ReductionKeepsLowByte(sum + b);
    assert (sum + b) % 256 == (exact + b) % 256 by {
      LowByteShift(exact + b, sum / 256 - exact / 256);
    }
    LowByteShift(sum + b, if b < 128 then 0 else TWO_64 / 256 - 1);
  }

  lemma SameChecksum(sum: int, exact: int)
    requires 0 <= sum < TWO_64 && sum % 256 == exact % 256
    ensures (0xFF - sum) % TWO_64 % 256 == (0xFF - exact) % 256
  {
    ReductionKeepsLowByte(0xFF - sum);
    LowByteShift(0xFF - sum, sum / 256 - exact / 256);
  }

  // ---------------------------------------------------------------------------------------------
  // Big-endian numbers

  function Pow256(k: nat): (p: int)
    ensures p >= 1
  {
    if k == 0 then 1 else 256 * Pow256(k - 1)
  }

  /** The last `width` bytes of a number, most significant first. */
  function BigEndian(n: nat, width: nat): (bytes: seq<byte>)
    ensures |bytes| == width
  {
    if width == 0 then [] else BigEndian(n / 256, width - 1) + [n % 256]
  }

  /** What Message::DeSerialize assembles from the address bytes of a received packet. */
  function FromBigEndian(bytes: seq<byte>): nat {
    if bytes == [] then 0 else FromBigEndian(bytes[..|bytes| - 1]) * 256 + bytes[|bytes| - 1]
  }

  lemma {:induction false} BigEndianRoundTrip(n: nat, width: nat)
    requires n < Pow256(width)
    ensures FromBigEndian(BigEndian(n, width)) == n
  {
    if width > 0 {
      QuotientBelow(n, Pow256(width - 1));
      BigEndianRoundTrip(n / 256, width - 1);
      OneMoreByte(BigEndian(n / 256, width - 1), n % 256);
    }
  }

  lemma OneMoreByte(bytes: seq<byte>, b: byte)
    ensures FromBigEndian(bytes + [b]) == FromBigEndian(bytes) * 256 + b
  {
    assert (bytes + [b])[..|bytes|] == bytes;
  }

  lemma QuotientBelow(n: nat, p: int)
    requires n < 256 * p
    ensures n / 256 < p
  {
  }

  /** The bytes of the big-endian representation, by division and remainder. */
  lemma {:induction false} BigEndianByte(n: nat, width: nat, i: nat)
    requires i < width
    ensures BigEndian(n, width)[i] == n / Pow256(width - 1 - i) % 256
    decreases width
  {
    if i < width - 1 {
      BigEndianByte(n / 256, width - 1, i);
      QuotientOfQuotient(n, Pow256(width - 2 - i));
    }
  }

  lemma QuotientOfQuotient(n: nat, p: int)
    requires p >= 1
    ensures n / 256 / p == n / (256 * p)
  {
    var q, r := n / 256, n % 256;
    var a, b := q / p, q % p;
    assert n == 256 * (a * p + b) + r;
    assert n == a * (256 * p) + (256 * b + r);
    QuotientUnique(n, 256 * p, a, 256 * b + r);
  }

  // ---------------------------------------------------------------------------------------------
  // The frames the builders write

  /** Frame data of a transmit request: type, frame id, 64-bit address, reserved bytes, options, data. */
  function TransmitRequest(frameId: byte, addr: nat, data: seq<byte>): seq<byte> {
    [FRAME_TRANSMIT_REQUEST, frameId] + BigEndian(addr, 8) + [0xFF, 0xFE, 0x00, 0x00] + data
  }

  /** Character i of a std::string, whose position behind the last character reads as NUL. */
  function CharAt(name: seq<byte>, i: nat): byte
    requires i <= |name|
  {
    if i == |name| then 0 else name[i]
  }

  function AtCommand(frameId: byte, name: seq<byte>, data: seq<byte>): seq<byte>
    requires |name| >= 1
  {
    [FRAME_AT_COMMAND, frameId, CharAt(name, 0), CharAt(name, 1)] + data
  }

  /** Data and destination can be read back from a transmit request. */
  lemma TransmitRequestIsReadable(frameId: byte, addr: nat, data: seq<byte>)
    requires addr < Pow256(8)
    ensures var p := TransmitRequest(frameId, addr, data);
            && |p| == 14 + |data|
            && p[0] == 0x10 && p[1] == frameId && FromBigEndian(p[2..10]) == addr
            && p[10..14] == [0xFF, 0xFE, 0x00, 0x00] && p[14..] == data
  {
    var p := TransmitRequest(frameId, addr, data);
    assert p[2..10] == BigEndian(addr, 8);
    BigEndianRoundTrip(addr, 8);
  }

  /** Type, frame id, the two letters of the command (NUL for a missing second one) and data. */
  lemma AtCommandIsReadable(frameId: byte, name: seq<byte>, data: seq<byte>)
    requires |name| >= 1
    ensures var p := AtCommand(frameId, name, data);
            && |p| == 4 + |data|
            && p[0] == 0x08 && p[1] == frameId && p[2] == name[0] && p[3] == (if |name| > 1 then name[1] else 0)
            && p[4..] == data
  {
  }

  /** What the two builders are asked to frame. */
  datatype Request =
    | Transmit(frameId: byte, addr: nat, data: seq<byte>)
    | Command(frameId: byte, name: seq<byte>, data: seq<byte>)

  predicate ValidRequest(r: Request) { r.Command? ==> |r.name| >= 1 }

  function FrameData(r: Request): seq<byte>
    requires ValidRequest(r)
  {
    match r
    case Transmit(id, addr, data) => TransmitRequest(id, addr, data)
    case Command(id, name, data) => AtCommand(id, name, data)
  }

  /** The deframer up to its checksum test: every packet that passes is delivered. */
  const DELIVER_ALL: Dispatcher := (packet: seq<byte>) => Deliver

  function Segments(noises: seq<seq<byte>>, requests: seq<Request>): (s: seq<Segment>)
    requires |noises| == |requests| && forall r | r in requests :: ValidRequest(r)
    ensures |s| == |requests|
    ensures forall i | 0 <= i < |s| :: s[i] == Segment(noises[i], FrameData(requests[i]))
  {
    seq(|requests|, i requires 0 <= i < |requests| => Segment(noises[i], FrameData(requests[i])))
  }

  /**
    Frames from either builder, with noise free of start bytes around them, are split by the deframer into
    exactly their frame data in order.
  */
  lemma BuiltFramesComeBack(noises: seq<seq<byte>>, requests: seq<Request>, tail: seq<byte>)
    requires |noises| == |requests| && IsNoise(tail)
    requires forall n | n in noises :: IsNoise(n)
    requires forall r | r in requests :: ValidRequest(r) && |FrameData(r)| <= MAX_PAYLOAD
    ensures var r := Deframe(PieceBytes(WireAll(Segments(noises, requests))) + tail, DELIVER_ALL);
            && |r.frames| == |requests|
            && (forall i | 0 <= i < |requests| :: r.frames[i] == FrameData(requests[i]))
            && r.ending == Waiting(NoiseTail(tail))
  {
    var segments := Segments(noises, requests);
    forall s | s in segments
      ensures IsNoise(s.noise) && |s.payload| <= MAX_PAYLOAD
    {
      var i :| 0 <= i < |segments| && segments[i] == s;
      assert noises[i] in noises && requests[i] in requests;
    }
    FramesComeBack(segments, tail, DELIVER_ALL);
  }

  /** A message comes back from its own frame exactly when it has at most 65517 data bytes. */
  lemma MessageComesBackExactly(frameId: byte, addr: nat, data: seq<byte>)
    ensures var p := TransmitRequest(frameId, addr, data);
            p in Deframe(Frame(p), DELIVER_ALL).frames <==> |data| <= 65517
  {
    FrameComesBackExactly(TransmitRequest(frameId, addr, data), DELIVER_ALL);
  }

  /** What the radio answers to a request to send. */
  datatype Sent = Sent(frameId: byte, bytes: seq<byte>) | NoFrameId

  class DigiMeshRadio {
    const currentFrames: array<bool>          // the inUse flags of the frame table
    var previousFrame: int
    var currBuf: seq<byte>

    ghost function Ids(): FrameIds.Pool
      reads this, currentFrames
    {
      FrameIds.Pool((set id | 0 <= id < currentFrames.Length && currentFrames[id]), previousFrame)
    }

    ghost predicate Valid()
      reads this, currentFrames
    {
      currentFrames.Length == FrameIds.QUEUE_SIZE && FrameIds.Valid(Ids())
    }

    constructor ()
      ensures Valid() && Ids() == FrameIds.EMPTY && currBuf == []
      ensures fresh(currentFrames)
    {
      currentFrames := new bool[FrameIds.QUEUE_SIZE](_ => false);
      previousFrame := 0;
      currBuf := [];
    }

    method ReserveNextFrameId() returns (frameId: int)
      requires Valid()
      modifies this`previousFrame, currentFrames
      ensures Valid()
      ensures FrameIds.IsAnswer(old(Ids()), frameId)
      ensures frameId == -1 <==> FrameIds.AllOthersInUse(old(Ids()))
      ensures frameId != -1 ==> FrameIds.ValidId(frameId) && frameId !in old(Ids()).inUse
      ensures Ids() == FrameIds.AfterReserve(old(Ids()), frameId)
    {
      ghost var p := Ids();
      var prediction := previousFrame;
      ghost var k: nat := 0;
      while true
        invariant Ids() == p
        invariant prediction == if k == 0 then previousFrame else FrameIds.Candidate(previousFrame, k)
        invariant k > 0 ==> previousFrame != 0
        invariant forall j: nat | 1 <= j <= k :: FrameIds.Candidate(previousFrame, j) in p.inUse
        invariant k <= 254
        decreases 254 - k
      {
        FrameIds.NextCandidate(previousFrame, k);
        prediction := prediction + 1;
        if prediction > FrameIds.QUEUE_SIZE - 1 {
          prediction := 1;
        }
        k := k + 1;
        if prediction == previousFrame {
          FrameIds.AllCandidatesInUse(p);
          FrameIds.RefusedExactlyWhenOthersInUse(p, -1);
          return -1;
        }
        FrameIds.CandidateIsOther(previousFrame, k);
        if !currentFrames[prediction] {
          break;
        }
        assert prediction in p.inUse;
      }
      assert FrameIds.IsFirstFree(p, prediction);
      FrameIds.RefusedExactlyWhenOthersInUse(p, prediction);
      currentFrames[prediction] := true;
      previousFrame := prediction;
      frameId := prediction;
    }

    method FinishFrame(frameId: int)
      requires Valid() && 0 <= frameId < FrameIds.QUEUE_SIZE
      modifies currentFrames
      ensures Valid()
      ensures Ids() == FrameIds.AfterFinish(old(Ids()), frameId)
    {
      currentFrames[frameId] := false;
    }

    /** Builds a transmit request; an id is reserved only for a sender that waits for the response. */
    method ConstructMessage(data: seq<byte>, addr: nat, hasCallback: bool, signedChars: bool) returns (sent: Sent)
      requires Valid() && addr < Pow256(8)
      requires |data| + 18 < 0x8000_0000
      modifies this`previousFrame, currentFrames
      ensures Valid()
      ensures !hasCallback ==> Ids() == old(Ids()) && sent == Sent(0, Frame(TransmitRequest(0, addr, data)))
      ensures hasCallback ==>
        match sent
        case NoFrameId => FrameIds.IsAnswer(old(Ids()), -1) && Ids() == old(Ids())
        case Sent(id, bytes) =>
          && FrameIds.IsAnswer(old(Ids()), id)
          && Ids() == FrameIds.AfterReserve(old(Ids()), id)
          && bytes == Frame(TransmitRequest(id, addr, data))
    {
      var totalLength := 14 + |data| + 4;
      var txBuf := new byte[totalLength](_ => 0);
      var frameId := 0;
      if hasCallback {
        frameId := ReserveNextFrameId();
      }
      if frameId == -1 {
        return NoFrameId;
      }
      FillMessage(txBuf, frameId, addr, data);
      var checksum := CalcChecksum(txBuf, 3, totalLength - 1, signedChars);
      txBuf[totalLength - 1] := checksum;
      FrameFromParts(txBuf[..], TransmitRequest(frameId, addr, data));
      sent := Sent(frameId, txBuf[..]);
    }

    /** Builds a local AT command; it always reserves an id. */
    method AtCommandHelper(name: seq<byte>, data: seq<byte>, signedChars: bool) returns (sent: Sent)
      requires Valid() && |name| >= 1
      modifies this`previousFrame, currentFrames
      ensures Valid()
      ensures match sent
              case NoFrameId => FrameIds.IsAnswer(old(Ids()), -1) && Ids() == old(Ids())
              case Sent(id, bytes) =>
                && FrameIds.IsAnswer(old(Ids()), id)
                && Ids() == FrameIds.AfterReserve(old(Ids()), id)
                && bytes == Frame(AtCommand(id, name, data))
    {
      var frameId := ReserveNextFrameId();
      if frameId == -1 {
        return NoFrameId;
      }
      var txBuf := new byte[8 + |data|](_ => 0);
      FillAtCommand(txBuf, frameId, name, data);
      var checksum := CalcChecksum(txBuf, 3, 8 + |data| - 1, signedChars);
      txBuf[7 + |data|] := checksum;
      FrameFromParts(txBuf[..], AtCommand(frameId, name, data));
      sent := Sent(frameId, txBuf[..]);
    }

    /** What the receive loop finds at the head of its buffer, before it erases anything. */
    method InspectBuffer() returns (scan: Scan)
      ensures scan == ScanHead(currBuf)
    {
      if |currBuf| < 3 {
        return NeedMore;
      }
      if currBuf[0] != START_BYTE {
        return Skip;
      }
      var packetLength := (BigEndian16(currBuf[1], currBuf[2]) + 4) % 0x1_0000;
      if |currBuf| < packetLength {
        return NeedMore;
      }
      if packetLength < 4 {
        return Malformed;
      }
      var packet := currBuf[3..packetLength - 1];
      var dataCheck := AddBytes(currBuf[packetLength - 1], packet);
      scan := Packet(packet, dataCheck == 0xFF, packetLength);
    }

    /**
      The receive loop. Frames handed to a handler are returned in order; the buffer keeps what one call
      could not decide. After undefined behaviour nothing is said about the buffer.
    */
    method ReceiveData(buffer: seq<byte>) returns (reception: Reception)
      modifies this`currBuf
      ensures reception == Deframe(old(currBuf) + buffer, Dispatch)
      ensures !reception.ending.Lost? ==> currBuf == reception.ending.rest
    {
      hide Deframe, Dispatch, ScanHead;
      currBuf := currBuf + buffer;
      var frames: seq<seq<byte>> := [];
      ghost var whole := Deframe(currBuf, Dispatch);
      while true
        invariant whole == After(frames, Deframe(currBuf, Dispatch))
        decreases |currBuf|
      {
        DeframeByScan(currBuf, Dispatch);
        var scan := InspectBuffer();
        match scan
        case NeedMore => return Reception(frames, Waiting(currBuf));
        case Skip => currBuf := currBuf[1..];
        case Malformed => return Reception(frames, Lost);
        case Packet(packet, intact, packetLength) =>
          currBuf := currBuf[packetLength..];
          if intact {
            match Dispatch(packet)
            case Undefined => return Reception(frames, Lost);
            case Throw => return Reception(frames, Threw(currBuf));
            case DeliverThenThrow => return Reception(frames + [packet], Threw(currBuf));
            case Ignore =>
            case Deliver =>
              AfterIsAssociative(frames, [packet], Deframe(currBuf, Dispatch));
              frames := frames + [packet];
          }
      }
    }
  }

  lemma SumOfNothing()
    ensures Sum([]) == 0
  {
  }

  lemma AddByte(sum: int, b: byte)
    ensures (sum % 256 + b) % 256 == (sum + b) % 256
  {
  }

  /** The 8-bit sum by which the receive loop checks a packet. */
  method AddBytes(checksum: byte, packet: seq<byte>) returns (dataCheck: byte)
    ensures dataCheck == (checksum + Sum(packet)) % 256
  {
    SumOfNothing();
    hide Sum;
    dataCheck := checksum;
    var i := 0;
    assert packet[..i] == [];
    while i < |packet|
      invariant 0 <= i <= |packet|
      invariant dataCheck == (checksum + Sum(packet[..i])) % 256
    {
      SumStep(packet[..i], packet[..i + 1], packet[i]);
      AddByte(checksum + Sum(packet[..i]), packet[i]);
      dataCheck := (dataCheck + packet[i]) % 256;
      i := i + 1;
    }
    assert packet[..i] == packet;
  }

  lemma FrameFromParts(txBuf: seq<byte>, payload: seq<byte>)
    requires |txBuf| == |payload| + 4
    requires txBuf[..3] == [START_BYTE, |payload| / 256 % 256, |payload| % 256]
    requires txBuf[3..|txBuf| - 1] == payload
    requires txBuf[|txBuf| - 1] == Checksum(payload)
    ensures txBuf == Frame(payload)
  {
    assert txBuf == txBuf[..3] + txBuf[3..|txBuf| - 1] + [txBuf[|txBuf| - 1]];
  }

  /** The loops that copy the data into the frame. */
  method CopyData(txBuf: array<byte>, offset: nat, data: seq<byte>)
    requires offset + |data| <= txBuf.Length
    modifies txBuf
    ensures txBuf[..offset] == old(txBuf[..offset])
    ensures txBuf[offset..offset + |data|] == data
  {
    var i := 0;
    while i < |data|
      invariant 0 <= i <= |data|
      invariant txBuf[..offset] == old(txBuf[..offset])
      invariant txBuf[offset..offset + i] == data[..i]
    {
      txBuf[offset + i] := data[i];
      i := i + 1;
    }
  }

  /** The loop that shifts the address into the frame. */
  method CopyAddress(txBuf: array<byte>, addr: nat)
    requires txBuf.Length >= 13
    modifies txBuf
    ensures txBuf[..5] == old(txBuf[..5])
    ensures txBuf[5..13] == BigEndian(addr, 8)
  {
    var i := 0;
    while i < 8
      invariant 0 <= i <= 8
      invariant txBuf[..5] == old(txBuf[..5])
      invariant txBuf[5..5 + i] == BigEndian(addr, 8)[..i]
    {
      BigEndianByte(addr, 8, i);
      txBuf[5 + i] := addr / Pow256(7 - i) % 256;
      i := i + 1;
    }
  }

  lemma FilledParts(buf: seq<byte>, fixed: seq<byte>, data: seq<byte>)
    requires |buf| == |fixed| + |data| + 1 && |fixed| >= 3
    requires buf[..|fixed|] == fixed && buf[|fixed|..|fixed| + |data|] == data
    ensures buf[..3] == fixed[..3] && buf[3..|buf| - 1] == fixed[3..] + data
  {
    assert buf[..3] == buf[..|fixed|][..3];
    assert buf[3..|buf| - 1] == buf[..|fixed|][3..] + buf[|fixed|..|fixed| + |data|];
  }

  /** The part of construct_message that fills the buffer by index. */
  method FillMessage(txBuf: array<byte>, frameId: byte, addr: nat, data: seq<byte>)
    requires txBuf.Length == |data| + 18
    modifies txBuf
    ensures txBuf[..3] == [START_BYTE, (14 + |data|) / 256 % 256, (14 + |data|) % 256]
    ensures txBuf[3..txBuf.Length - 1] == TransmitRequest(frameId, addr, data)
  {
    var packetLength := 14 + |data|;
    txBuf[0] := START_BYTE;
    txBuf[1] := packetLength / 0x100 % 0x100;
    txBuf[2] := packetLength % 0x100;
    txBuf[3] := FRAME_TRANSMIT_REQUEST;
    txBuf[4] := frameId;
    ghost var start := txBuf[..5];
    hide BigEndian;
    CopyAddress(txBuf, addr);
    ghost var address := txBuf[..13];
    assert address == start + BigEndian(addr, 8);
    txBuf[13] := 0xFF;
    txBuf[14] := 0xFE;
    txBuf[15] := 0x00;
    txBuf[16] := 0x00;
    ghost var fixed := txBuf[..17];
    assert fixed == address + [0xFF, 0xFE, 0x00, 0x00] by {
      assert txBuf[..13] == address;
    }
    CopyData(txBuf, 17, data);
    assert txBuf[..][..17] == txBuf[..17];
    assert txBuf[..][17..17 + |data|] == txBuf[17..17 + |data|];
    FilledParts(txBuf[..], fixed, data);
    assert fixed[3..] + data == TransmitRequest(frameId, addr, data);
  }

  /** The part of AT_command_helper that fills the buffer by index. */
  method FillAtCommand(txBuf: array<byte>, frameId: byte, name: seq<byte>, data: seq<byte>)
    requires txBuf.Length == |data| + 8 && |name| >= 1
    modifies txBuf
    ensures txBuf[..3] == [START_BYTE, (4 + |data|) / 256 % 256, (4 + |data|) % 256]
    ensures txBuf[3..txBuf.Length - 1] == AtCommand(frameId, name, data)
  {
    txBuf[0] := START_BYTE;
    txBuf[1] := (0x04 + |data|) / 0x100 % 0x100;
    txBuf[2] := (0x04 + |data|) % 0x100;
    txBuf[3] := FRAME_AT_COMMAND;
    txBuf[4] := frameId;
    txBuf[5] := CharAt(name, 0);
    txBuf[6] := CharAt(name, 1);
    ghost var fixed := txBuf[..7];
    assert fixed[3..] == [FRAME_AT_COMMAND, frameId, CharAt(name, 0), CharAt(name, 1)];
    if |data| > 0 {
      CopyData(txBuf, 7, data);
    }
    assert txBuf[..][..7] == txBuf[..7];
    assert txBuf[..][7..7 + |data|] == txBuf[7..7 + |data|] == data;
    FilledParts(txBuf[..], fixed, data);
  }
}

/**
  Reading a byte stream that arrives in chunks, for any reader that decides by looking at the head of its
  buffer: the loop of DigiMeshRadio::ReceiveData without the frame format. Chunk independence is proved
  here once, from four facts about the reader.
*/
module ChunkedReading {

  type byte = x: int | 0 <= x < 256

  /** One iteration of the receive loop: how many bytes it erases, what it delivers, whether it throws. */
  datatype Step = Wait | Crash | Consume(size: nat, delivered: seq<seq<byte>>, throws: bool)

  /** Fewer buffered bytes than this are never looked at. */
  const LOOK_AHEAD := 3

  /** Every iteration that goes on shrinks the buffer. */
  ghost predicate Shrinks(head: seq<byte> -> Step) {
    forall buf :: head(buf).Consume? ==> 1 <= head(buf).size <= |buf|
  }

  type Reader = head: seq<byte> -> Step | Shrinks(head) witness (buf: seq<byte>) => Wait

  /** What was decided stays decided when more bytes arrive. */
  ghost predicate IsStable(head: Reader) {
    && head([]).Wait?
    && forall buf, more :: !head(buf).Wait? ==> head(buf + more) == head(buf)
  }

  /** A decision is made by the bytes it erases, or by the look-ahead. */
  ghost predicate IsLocal(head: Reader) {
    && (forall buf, more :: head(buf + more).Consume? && |buf| >= head(buf + more).size && |buf| >= LOOK_AHEAD
                            ==> head(buf) == head(buf + more))
    && (forall buf :: head(buf).Consume? && head(buf).throws ==> head(buf).size >= LOOK_AHEAD)
  }

  /** How one call ends: waiting for more bytes, with an exception, or in undefined behaviour. */
  datatype Ending = Waiting(rest: seq<byte>) | Threw(rest: seq<byte>) | Lost

  datatype Reception = Reception(frames: seq<seq<byte>>, ending: Ending)

  function After(first: seq<seq<byte>>, later: Reception): Reception {
    Reception(first + later.frames, later.ending)
  }

  /** One call: iterate until the reader waits, throws or is lost. */
  function Receive(buf: seq<byte>, head: Reader): Reception
    decreases |buf|
  {
    match head(buf)
    case Wait => Reception([], Waiting(buf))
    case Crash => Reception([], Lost)
    case Consume(size, delivered, throws) =>
      if throws then Reception(delivered, Threw(buf[size..]))
      else After(delivered, Receive(buf[size..], head))
  }

  function Flatten(chunks: seq<seq<byte>>): seq<byte> {
    if chunks == [] then [] else chunks[0] + Flatten(chunks[1..])
  }

  /** Successive calls; an exception ends its call and the next call goes on from the buffer. */
  function ReceiveAll(buffer: seq<byte>, chunks: seq<seq<byte>>, head: Reader): Reception
    decreases |chunks|
  {
    if chunks == [] then Reception([], Waiting(buffer))
    else
      var r := Receive(buffer + chunks[0], head);
      if r.ending.Lost? then r
      else After(r.frames, ReceiveAll(r.ending.rest, chunks[1..], head))
  }

  /** The same frames in the same order, and the same bytes left in the buffer. */
  predicate SameEffect(a: Reception, b: Reception) {
    a.frames == b.frames && (if a.ending.Lost? || b.ending.Lost? then a.ending == b.ending
                             else a.ending.rest == b.ending.rest)
  }

  /** How a longer buffer is received, in terms of what its first part did. */
  lemma {:induction false} ReceiveExtended(buf: seq<byte>, more: seq<byte>, head: Reader)
    requires IsStable(head)
    ensures var r, s := Receive(buf, head), Receive(buf + more, head);
            match r.ending
            case Waiting(rest) => s == After(r.frames, Receive(rest + more, head))
            case Threw(rest) => s == Reception(r.frames, Threw(rest + more))
            case Lost => s == r
    decreases |buf|
  {
    var step := head(buf);
    if step.Consume? {
      var later := buf[step.size..];
      assert (buf + more)[step.size..] == later + more;
      if !step.throws {
        ReceiveExtended(later, more, head);
        var r := Receive(later, head);
        if r.ending.Waiting? {
          AfterIsAssociative(step.delivered, r.frames, Receive(r.ending.rest + more, head));
        }
      }
    }
  }

  lemma AfterIsAssociative(a: seq<seq<byte>>, b: seq<seq<byte>>, r: Reception)
    ensures After(a, After(b, r)) == After(a + b, r)
  {
    assert a + (b + r.frames) == (a + b) + r.frames;
  }

  lemma {:induction false} WaitingIsQuiescent(buf: seq<byte>, head: Reader)
    ensures Receive(buf, head).ending.Waiting? ==> head(Receive(buf, head).ending.rest).Wait?
    decreases |buf|
  {
    var step := head(buf);
    if step.Consume? { WaitingIsQuiescent(buf[step.size..], head); }
  }

  /** Bytes that do not complete a frame stay in the buffer however they arrive. */
  lemma {:induction false} QuiescentChunks(buffer: seq<byte>, chunks: seq<seq<byte>>, head: Reader)
    requires IsStable(head)
    requires head(buffer + Flatten(chunks)).Wait?
    ensures ReceiveAll(buffer, chunks, head) == Reception([], Waiting(buffer + Flatten(chunks)))
    decreases |chunks|
  {
    if chunks == [] {
      assert buffer + Flatten(chunks) == buffer;
    } else {
      assert buffer + Flatten(chunks) == (buffer + chunks[0]) + Flatten(chunks[1..]);
      QuiescentChunks(buffer + chunks[0], chunks[1..], head);
    }
  }

  /** The condition under which the split of a stream into calls cannot be observed. */
  predicate SplitDoesNotMatter(stream: seq<byte>, head: Reader) {
    var r := Receive(stream, head);
    r.ending.Threw? ==> head(r.ending.rest).Wait?
  }

  lemma {:induction false} AnySplitSameEffect(buffer: seq<byte>, chunks: seq<seq<byte>>, head: Reader)
    requires IsStable(head)
    requires head(buffer).Wait?
    requires SplitDoesNotMatter(buffer + Flatten(chunks), head)
    ensures SameEffect(ReceiveAll(buffer, chunks, head), Receive(buffer + Flatten(chunks), head))
    decreases |chunks|
  {
    if chunks == [] {
      assert buffer + Flatten(chunks) == buffer;
    } else {
      var first, others := buffer + chunks[0], Flatten(chunks[1..]);
      assert buffer + Flatten(chunks) == first + others;
      ReceiveExtended(first, others, head);
      var r := Receive(first, head);
      match r.ending
      case Lost =>
      case Waiting(rest) =>
        WaitingIsQuiescent(first, head);
        AnySplitSameEffect(rest, chunks[1..], head);
      case Threw(rest) =>
        QuiescentChunks(rest, chunks[1..], head);
        assert r.frames + [] == r.frames;
    }
  }

  lemma DecidedLocally(head: Reader, part: seq<byte>, rest: seq<byte>)
    requires IsLocal(head) && head(part + rest).Consume?
    ensures |part| >= head(part + rest).size && |part| >= LOOK_AHEAD ==> head(part) == head(part + rest)
    ensures head(part + rest).throws ==> head(part + rest).size >= LOOK_AHEAD
  {
  }

  /** The part of the stream that one call consumes before it throws. */
  lemma {:induction false} ThrownPrefix(stream: seq<byte>, head: Reader) returns (thrown: seq<byte>)
    requires IsLocal(head)
    requires Receive(stream, head).ending.Threw?
    ensures thrown + Receive(stream, head).ending.rest == stream
    ensures Receive(thrown, head) == Reception(Receive(stream, head).frames, Threw([]))
    ensures |thrown| >= LOOK_AHEAD
    decreases |stream|
  {
    hide IsLocal;
    var step := head(stream);
    var first, later := stream[..step.size], stream[step.size..];
    var rest := Receive(stream, head).ending.rest;
    if step.throws {
      thrown := first;
      assert first + later == stream;
      DecidedLocally(head, first, later);
      assert first[step.size..] == [];
    } else {
      var t := ThrownPrefix(later, head);
      thrown := first + t;
      assert thrown + rest == stream by {
        assert t + rest == later;
        assert first + later == stream;
      }
      DecidedLocally(head, thrown, rest);
      assert thrown[step.size..] == t;
    }
  }

  /** A split into non-empty chunks that shows the difference when the bytes after a throw go on. */
  lemma SplitAfterThrow(stream: seq<byte>, head: Reader) returns (chunks: seq<seq<byte>>)
    requires IsLocal(head)
    requires head([]).Wait?
    requires !SplitDoesNotMatter(stream, head)
    ensures Flatten(chunks) == stream && [] !in chunks
    ensures !SameEffect(ReceiveAll([], chunks, head), Receive(stream, head))
  {
    var rest := Receive(stream, head).ending.rest;
    var thrown := ThrownPrefix(stream, head);
    chunks := [thrown, rest];
    assert chunks[1..] == [rest];
    assert Flatten([rest]) == rest + [];
    assert [] + thrown == thrown;
    ProgressUnlessWaiting(rest, head);
    LastChunk(rest, head);
    assert ReceiveAll([], chunks, head)
        == After(Receive(stream, head).frames, ReceiveAll([], [rest], head));
  }

  lemma LastChunk(rest: seq<byte>, head: Reader)
    ensures var r := ReceiveAll([], [rest], head);
            r.frames == Receive(rest, head).frames
            && (r.ending.Lost? <==> Receive(rest, head).ending.Lost?)
            && (!r.ending.Lost? ==> r.ending.rest == Receive(rest, head).ending.rest)
  {
    assert [] + rest == rest;
    var r := Receive(rest, head);
    if !r.ending.Lost? {
      assert r.frames + [] == r.frames;
      var none: seq<seq<byte>> := [];
      assert [rest][1..] == none;
      assert ReceiveAll([], [rest], head) == After(r.frames, ReceiveAll(r.ending.rest, [], head));
    }
  }

  lemma {:induction false} ProgressUnlessWaiting(buf: seq<byte>, head: Reader)
    ensures var r := Receive(buf, head);
            r.ending.Lost? || |r.ending.rest| < |buf| || (head(buf).Wait? && r.ending == Waiting(buf))
    decreases |buf|
  {
    var step := head(buf);
    if step.Consume? { ProgressUnlessWaiting(buf[step.size..], head); }
  }

  /**
    Chunk independence, exactly: every way to split the stream into calls delivers the same frames and
    leaves the same buffer as one call, if and only if no frame makes the receiver throw while something
    it can decide on still follows that frame.
  */
  lemma ChunkIndependenceExactly(stream: seq<byte>, head: Reader)
    requires IsStable(head) && IsLocal(head)
    ensures (forall chunks | Flatten(chunks) == stream && [] !in chunks ::
               SameEffect(ReceiveAll([], chunks, head), Receive(stream, head)))
       <==> SplitDoesNotMatter(stream, head)
  {
    if SplitDoesNotMatter(stream, head) {
      forall chunks | Flatten(chunks) == stream
        ensures SameEffect(ReceiveAll([], chunks, head), Receive(stream, head))
      {
        assert [] + Flatten(chunks) == stream;
        AnySplitSameEffect([], chunks, head);
      }
    } else {
      var chunks := SplitAfterThrow(stream, head);
    }
  }

  // ---------------------------------------------------------------------------------------------
  // Streams made of pieces that the reader recognises whatever follows them

  datatype Piece = Piece(bytes: seq<byte>, frame: seq<byte>)

  function PieceBytes(pieces: seq<Piece>): seq<byte> {
    if pieces == [] then [] else pieces[0].bytes + PieceBytes(pieces[1..])
  }

  function PieceFrames(pieces: seq<Piece>): (fs: seq<seq<byte>>)
    ensures |fs| == |pieces| && forall i | 0 <= i < |fs| :: fs[i] == pieces[i].frame
  {
    seq(|pieces|, i requires 0 <= i < |pieces| => pieces[i].frame)
  }

  ghost predicate Recognises(head: Reader, p: Piece) {
    forall more :: Receive(p.bytes + more, head) == After([p.frame], Receive(more, head))
  }

  lemma {:induction false} PiecesAreRead(pieces: seq<Piece>, tail: seq<byte>, head: Reader)
    requires forall p | p in pieces :: Recognises(head, p)
    ensures Receive(PieceBytes(pieces) + tail, head) == After(PieceFrames(pieces), Receive(tail, head))
    decreases |pieces|
  {
    if pieces == [] {
      assert PieceBytes(pieces) + tail == tail;
      assert PieceFrames(pieces) + Receive(tail, head).frames == Receive(tail, head).frames;
    } else {
      var p, later := pieces[0], PieceBytes(pieces[1..]) + tail;
      assert PieceBytes(pieces) + tail == p.bytes + later;
      PiecesAreRead(pieces[1..], tail, head);
      assert Recognises(head, p);
      AfterIsAssociative([p.frame], PieceFrames(pieces[1..]), Receive(tail, head));
      assert PieceFrames(pieces) == [p.frame] + PieceFrames(pieces[1..]);
    }
  }
}

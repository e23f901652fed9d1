/** How the slave assembles a request from the serial input (receiveFrame),
    checks its CRC (isFrameCorrupted), and what one poll step (update) does,
    all as values. The serial port is a sequence of bytes waiting to be read;
    a read takes as many of them as fit. */
module Assembler {
  import opened Wire
  import opened Registers
  import opened Requests

  function Min(a: nat, b: nat): (m: nat)
    ensures m <= a && m <= b && (m == a || m == b)
  {
    if a <= b then a else b
  }

  /** `buffer` with `data` copied in from index `at`. */
  function Overwrite(buffer: seq<byte>, at: nat, data: seq<byte>): (r: seq<byte>)
    requires at + |data| <= |buffer|
    ensures |r| == |buffer|
    ensures r[..at] == buffer[..at] && r[at..at + |data|] == data && r[at + |data|..] == buffer[at + |data|..]
  {
    buffer[..at] + data + buffer[at + |data|..]
  }

  /** Copying one more byte extends the copied block by one position. */
  lemma OverwriteOneMore(buffer: seq<byte>, at: nat, data: seq<byte>, x: byte)
    requires at + |data| < |buffer|
    ensures Overwrite(buffer, at, data + [x]) == Overwrite(buffer, at, data)[at + |data| := x]
  {
    var l, r := Overwrite(buffer, at, data + [x]), Overwrite(buffer, at, data)[at + |data| := x];
    assert |l| == |r|;
    forall j | 0 <= j < |l| ensures l[j] == r[j] {
      if j < at {
        assert l[j] == l[..at][j] && r[j] == Overwrite(buffer, at, data)[..at][j];
      } else if j < at + |data| + 1 {
        assert l[j] == l[at..at + |data| + 1][j - at];
        if j < at + |data| {
          assert r[j] == Overwrite(buffer, at, data)[at..at + |data|][j - at];
        }
      } else {
        assert l[j] == l[at + |data| + 1..][j - at - |data| - 1];
        assert r[j] == Overwrite(buffer, at, data)[at + |data|..][j - at - |data|];
      }
    }
  }

  /** The number of bytes a read of at most `max` bytes takes from `pending`. */
  function Taken(pending: seq<byte>, max: nat): nat {
    Min(|pending|, max)
  }

  /** The state receiveFrame leaves behind: input buffer and its length, the
      unread input, the output buffer, the frames written, and the result. */
  datatype Poll = Poll(
    buffer: seq<byte>,
    length: nat,
    pending: seq<byte>,
    output: seq<byte>,
    replies: seq<seq<byte>>,
    complete: bool)

  /** Function codes whose requests are exactly 8 bytes long. */
  predicate FixedLength(fc: byte) {
    ReadCoils <= fc <= WriteSingleRegister
  }

  /** Function codes whose requests carry a byte count in byte 6. */
  predicate CountedLength(fc: byte) {
    fc == WriteMultipleCoils || fc == WriteMultipleRegisters
  }

  /** receiveFrame once the read is done: decide from byte 1 whether the
      frame is complete. An unknown function code is answered with
      IllegalFunction at once; the rest of the input is then read into the
      front of the buffer (at most 255 bytes, discarded) and the buffer is
      emptied. */
  function Classify(buf: seq<byte>, len: nat, rest: seq<byte>, output: seq<byte>, id: byte, crc: Crc): Poll
    requires |buf| == FrameCapacity && |output| == FrameCapacity && len <= FrameCapacity
  {
    if len < 2 then Poll(buf, len, rest, output, [], false)
    else if FixedLength(buf[1]) then Poll(buf, len, rest, output, [], len == 8)
    else if CountedLength(buf[1]) then Poll(buf, len, rest, output, [], len == buf[6] as int + 9)
    else
      var drained := Taken(rest, FrameCapacity);
      Poll(Overwrite(buf, 0, rest[..drained]), 0, rest[drained..],
           ExceptionBuffer(output, id, buf[1], IllegalFunction, crc),
           [ExceptionFrame(id, buf[1], IllegalFunction, crc)], false)
  }

  /** receiveFrame: when input is waiting, append as much of it as fits and
      classify the result; otherwise do nothing. */
  function Receive(buffer: seq<byte>, length: nat, pending: seq<byte>, output: seq<byte>, id: byte, crc: Crc): Poll
    requires |buffer| == FrameCapacity && |output| == FrameCapacity && length <= FrameCapacity
  {
    if pending == [] then Poll(buffer, length, pending, output, [], false)
    else
      var n := Taken(pending, FrameCapacity - length);
      Classify(Overwrite(buffer, length, pending[..n]), length + n, pending[n..], output, id, crc)
  }

  /** After the read of receiveFrame, what is left to do is Classify. */
  lemma ReceiveReads(buffer: seq<byte>, length: nat, pending: seq<byte>, output: seq<byte>, id: byte, crc: Crc,
                     buf: seq<byte>, len: nat, rest: seq<byte>)
    requires |buffer| == FrameCapacity && |output| == FrameCapacity && length <= FrameCapacity && pending != []
    requires var n := Taken(pending, FrameCapacity - length);
      buf == Overwrite(buffer, length, pending[..n]) && len == length + n && rest == pending[n..]
    ensures |buf| == FrameCapacity && len <= FrameCapacity
    ensures Receive(buffer, length, pending, output, id, crc) == Classify(buf, len, rest, output, id, crc)
  {
  }

  /** The bytes buffered after a read: what was buffered, then as much of the
      input as fits. */
  function Buffered(buffer: seq<byte>, length: nat, pending: seq<byte>): (s: seq<byte>)
    requires length <= FrameCapacity <= |buffer|
    ensures |s| == Min(length + |pending|, FrameCapacity)
  {
    buffer[..length] + pending[..Taken(pending, FrameCapacity - length)]
  }

  /** The function code of the buffered bytes is not one the slave knows. */
  predicate Unknown(s: seq<byte>) {
    2 <= |s| && !FixedLength(s[1]) && !CountedLength(s[1])
  }

  /** Unless the function code is unknown, receiveFrame loses no byte and
      reorders none: the buffered bytes followed by the unread input are the
      same stream as before; the buffered prefix is not touched; and the
      length never exceeds the buffer. */
  lemma ReceiveKeepsStream(buffer: seq<byte>, length: nat, pending: seq<byte>, output: seq<byte>, id: byte, crc: Crc)
    requires |buffer| == FrameCapacity && |output| == FrameCapacity && length <= FrameCapacity
    requires pending == [] || !Unknown(Buffered(buffer, length, pending))
    ensures var p := Receive(buffer, length, pending, output, id, crc);
      && p.length <= FrameCapacity && |p.buffer| == FrameCapacity
      && p.buffer[..p.length] + p.pending == buffer[..length] + pending
      && p.buffer[..length] == buffer[..length]
      && p.buffer[p.length..] == buffer[p.length..]
      && p.replies == [] && p.output == output
  {
    if pending != [] {
      var n := Taken(pending, FrameCapacity - length);
      var buf := Overwrite(buffer, length, pending[..n]);
      assert buf[..length + n] == buffer[..length] + pending[..n];
      assert pending == pending[..n] + pending[n..];
    }
  }

  /** receiveFrame reports a complete frame exactly when input was waiting
      and the buffered bytes are 8 long with a code in 1..6, or byte[6] + 9
      long with code 15 or 16. */
  lemma ReceiveCompletes(buffer: seq<byte>, length: nat, pending: seq<byte>, output: seq<byte>, id: byte, crc: Crc)
    requires |buffer| == FrameCapacity && |output| == FrameCapacity && length <= FrameCapacity
    ensures var s := Buffered(buffer, length, pending);
      Receive(buffer, length, pending, output, id, crc).complete <==>
        && pending != []
        && 2 <= |s|
        && ((FixedLength(s[1]) && |s| == 8) || (CountedLength(s[1]) && 7 <= |s| && |s| == s[6] as int + 9))
  {
    if pending != [] {
      var n := Taken(pending, FrameCapacity - length);
      var buf := Overwrite(buffer, length, pending[..n]);
      assert buf[..length + n] == Buffered(buffer, length, pending);
    }
  }

  /** With an unknown function code, receiveFrame writes exactly one frame,
      the IllegalFunction exception for that code from this slave's address,
      empties the buffer after reading up to 255 further bytes into its front,
      and reports no frame. No address or CRC check comes first. */
  lemma ReceiveRejectsUnknown(buffer: seq<byte>, length: nat, pending: seq<byte>, output: seq<byte>, id: byte, crc: Crc)
    requires |buffer| == FrameCapacity && |output| == FrameCapacity && length <= FrameCapacity
    requires pending != [] && Unknown(Buffered(buffer, length, pending))
    ensures var p, s := Receive(buffer, length, pending, output, id, crc), Buffered(buffer, length, pending);
      var rest := pending[Taken(pending, FrameCapacity - length)..];
      && p.replies == [ExceptionFrame(id, s[1], IllegalFunction, crc)]
      && p.replies[0][..3] == [id, ExceptionByte(s[1]), IllegalFunction]
      && p.output[..5] == p.replies[0]
      && p.length == 0 && !p.complete
      && p.pending == rest[Taken(rest, FrameCapacity)..]
      && p.buffer[..Taken(rest, FrameCapacity)] == rest[..Taken(rest, FrameCapacity)]
  {
    var n := Taken(pending, FrameCapacity - length);
    var buf := Overwrite(buffer, length, pending[..n]);
    var s := Buffered(buffer, length, pending);
    assert buf[..length + n] == s;
    assert buf[1] == s[1];
    ExceptionBufferSends(output, id, s[1], IllegalFunction, crc);
  }

  /** Once more than 8 bytes of a request with a code in 1..6 are buffered,
      no later read completes it and the buffer is never emptied by
      receiveFrame: the slave stays deaf until it is restarted. */
  lemma ReceiveNeverCompletesOverlong(buffer: seq<byte>, length: nat, pending: seq<byte>, output: seq<byte>, id: byte, crc: Crc)
    requires |buffer| == FrameCapacity && |output| == FrameCapacity && 8 < length <= FrameCapacity
    requires FixedLength(buffer[1])
    ensures var p := Receive(buffer, length, pending, output, id, crc);
      !p.complete && length <= p.length && p.buffer[1] == buffer[1] && p.replies == []
  {
  }

  /** isFrameCorrupted, read as 16-bit equality: the CRC over all but the last
      two bytes differs from the trailing word, read low byte first. */
  predicate Corrupted(frame: seq<byte>, length: nat, crc: Crc)
    requires 2 <= length <= |frame|
  {
    crc(frame[..length - 2]) != Word(frame[length - 1], frame[length - 2])
  }

  /** A frame passes the check exactly when it is its own first length - 2
      bytes sealed with their CRC: sending and checking are inverse. */
  lemma CorruptedIffNotSealed(frame: seq<byte>, length: nat, crc: Crc)
    requires 2 <= length <= |frame|
    ensures !Corrupted(frame, length, crc) <==> frame[..length] == Sealed(frame[..length - 2], crc)
  {
    var p := frame[..length - 2];
    if !Corrupted(frame, length, crc) {
      WordOfBytes(crc(p));
      assert frame[..length] == p + [frame[length - 2], frame[length - 1]];
    }
  }

  /** A sealed payload, with whatever follows it in the buffer, passes. */
  lemma SealedPasses(payload: seq<byte>, rest: seq<byte>, crc: Crc)
    ensures !Corrupted(Sealed(payload, crc) + rest, |payload| + 2, crc)
  {
    var frame := Sealed(payload, crc) + rest;
    assert frame[..|payload|] == payload;
  }

  /** The trailing word of isFrameCorrupted as it is read through a `short`:
      the two's-complement value of the 16 bits. */
  function SignedWord(w: uint16): (v: int)
    ensures -0x8000 <= v < 0x8000
    ensures v == w || v == w - 0x1_0000
  {
    if w < 0x8000 then w else w - 0x1_0000
  }

  /** isFrameCorrupted on a target whose `int` is wider than 16 bits: the
      `uint16_t` CRC and the `short` trailer are both widened to `int` before
      they are compared, so their values, not their bits, must agree. */
  predicate CorruptedWideInt(frame: seq<byte>, length: nat, crc: Crc)
    requires 2 <= length <= |frame|
  {
    crc(frame[..length - 2]) != SignedWord(Word(frame[length - 1], frame[length - 2]))
  }

  /** On such a target every correctly sealed frame whose CRC has its top bit
      set is reported as corrupted, and a frame is accepted only when its CRC
      is below 0x8000 and matches. */
  lemma WideIntRejectsHighCrc(payload: seq<byte>, rest: seq<byte>, crc: Crc)
    ensures var frame := Sealed(payload, crc) + rest;
      CorruptedWideInt(frame, |payload| + 2, crc) <==> crc(payload) >= 0x8000
  {
    var frame := Sealed(payload, crc) + rest;
    assert frame[..|payload|] == payload;
    assert Word(frame[|payload| + 1], frame[|payload|]) == crc(payload);
  }

  /** The state one update call leaves behind. */
  datatype Outcome = Outcome(
    buffer: seq<byte>,
    length: nat,
    pending: seq<byte>,
    output: seq<byte>,
    replies: seq<seq<byte>>,
    bitWrites: seq<(BitCell, bool)>,
    wordWrites: seq<(WordCell, uint16)>)

  /** A completed frame that is addressed to this slave and carries a good
      CRC: the frames parseFrame is given. */
  predicate Accepted(p: Poll, id: byte, crc: Crc) {
    p.complete && 2 <= p.length <= |p.buffer| && p.buffer[0] == id && !Corrupted(p.buffer, p.length, crc)
  }

  /** A completed frame is at least 8 bytes long. */
  lemma CompleteIsLong(buffer: seq<byte>, length: nat, pending: seq<byte>, output: seq<byte>, id: byte, crc: Crc)
    requires |buffer| == FrameCapacity && |output| == FrameCapacity && length <= FrameCapacity
    ensures var p := Receive(buffer, length, pending, output, id, crc);
      |p.buffer| == FrameCapacity && |p.output| == FrameCapacity && p.length <= FrameCapacity
      && (p.complete ==> 8 <= p.length && p.replies == [])
  {
    if pending != [] {
      var n := Taken(pending, FrameCapacity - length);
      ClassifyShape(Overwrite(buffer, length, pending[..n]), length + n, pending[n..], output, id, crc);
    }
  }

  /** Classify keeps both buffers full-size and the length in range, and
      reports completion only for a frame of at least 8 bytes, with no reply. */
  lemma ClassifyShape(buf: seq<byte>, len: nat, rest: seq<byte>, output: seq<byte>, id: byte, crc: Crc)
    requires |buf| == FrameCapacity && |output| == FrameCapacity && len <= FrameCapacity
    ensures var p := Classify(buf, len, rest, output, id, crc);
      |p.buffer| == FrameCapacity && |p.output| == FrameCapacity && p.length <= FrameCapacity
      && (p.complete ==> 8 <= p.length && p.replies == [])
  {
  }

  /** A frame that would be parsed keeps every index its handler touches
      inside the buffers. */
  predicate Admissible(frame: seq<byte>, length: nat, t: seq<Register>, id: byte, crc: Crc)
    requires |frame| == FrameCapacity && 2 <= length <= FrameCapacity
  {
    frame[0] == id && !Corrupted(frame, length, crc) ==> Fits(frame, t)
  }

  /** The request update would hand to parseFrame is admissible. */
  predicate UpdateFits(buffer: seq<byte>, length: nat, pending: seq<byte>, output: seq<byte>, t: seq<Register>, id: byte, crc: Crc)
    requires |buffer| == FrameCapacity && |output| == FrameCapacity && length <= FrameCapacity
  {
    var p := Receive(buffer, length, pending, output, id, crc);
    CompleteIsLong(buffer, length, pending, output, id, crc);
    p.complete ==> Admissible(p.buffer, p.length, t, id, crc)
  }

  /** What update does with a completed frame: a frame for another slave or
      with a bad CRC is dropped, any other is parsed. */
  function Handled(frame: seq<byte>, length: nat, output: seq<byte>, t: seq<Register>, id: byte, crc: Crc): Effect
    reads BitCells(t), WordCells(t)
    requires |frame| == FrameCapacity && |output| == FrameCapacity && 2 <= length <= FrameCapacity
    requires WellKinded(t) && Admissible(frame, length, t, id, crc)
  {
    if frame[0] != id || Corrupted(frame, length, crc) then Effect(output, [], [], [])
    else Parse(frame, output, t, id, crc)
  }

  /** update: receive; a completed frame is handled, and the buffer is
      emptied afterwards. */
  function UpdateSpec(buffer: seq<byte>, length: nat, pending: seq<byte>, output: seq<byte>, t: seq<Register>, id: byte, crc: Crc): Outcome
    reads BitCells(t), WordCells(t)
    requires |buffer| == FrameCapacity && |output| == FrameCapacity && length <= FrameCapacity
    requires WellKinded(t) && UpdateFits(buffer, length, pending, output, t, id, crc)
  {
    var p := Receive(buffer, length, pending, output, id, crc);
    CompleteIsLong(buffer, length, pending, output, id, crc);
    if !p.complete then Outcome(p.buffer, p.length, p.pending, p.output, p.replies, [], [])
    else
      var e := Handled(p.buffer, p.length, p.output, t, id, crc);
      Outcome(p.buffer, 0, p.pending, e.output, e.replies, e.bitWrites, e.wordWrites)
  }

  /** A completed frame for another slave, or one whose CRC does not match,
      produces no output and no register write; after every completed frame
      the buffer is empty. */
  lemma UpdateDropsForeignOrCorrupt(buffer: seq<byte>, length: nat, pending: seq<byte>, output: seq<byte>, t: seq<Register>, id: byte, crc: Crc)
    requires |buffer| == FrameCapacity && |output| == FrameCapacity && length <= FrameCapacity
    requires WellKinded(t) && UpdateFits(buffer, length, pending, output, t, id, crc)
    ensures var p, u := Receive(buffer, length, pending, output, id, crc), UpdateSpec(buffer, length, pending, output, t, id, crc);
      && (p.complete ==> u.length == 0 && u.buffer == p.buffer && u.pending == p.pending)
      && (p.complete && (p.buffer[0] != id || Corrupted(p.buffer, p.length, crc)) ==>
            u.replies == [] && u.bitWrites == [] && u.wordWrites == [] && u.output == output)
  {
    CompleteIsLong(buffer, length, pending, output, id, crc);
  }

  /** An incomplete poll writes no register and sends at most the
      IllegalFunction exception of receiveFrame. */
  lemma UpdateIncomplete(buffer: seq<byte>, length: nat, pending: seq<byte>, output: seq<byte>, t: seq<Register>, id: byte, crc: Crc)
    requires |buffer| == FrameCapacity && |output| == FrameCapacity && length <= FrameCapacity
    requires WellKinded(t) && UpdateFits(buffer, length, pending, output, t, id, crc)
    requires !Receive(buffer, length, pending, output, id, crc).complete
    ensures var u := UpdateSpec(buffer, length, pending, output, t, id, crc);
      var s := Buffered(buffer, length, pending);
      && u.bitWrites == [] && u.wordWrites == []
      && (u.replies == [] || (pending != [] && Unknown(s) && u.length == 0 &&
                              u.replies == [ExceptionFrame(id, s[1], IllegalFunction, crc)]))
  {
    if pending != [] && Unknown(Buffered(buffer, length, pending)) {
      ReceiveRejectsUnknown(buffer, length, pending, output, id, crc);
    } else {
      ReceiveKeepsStream(buffer, length, pending, output, id, crc);
    }
  }

  /** A frame that is parsed was a sealed request for this slave, and what
      update does with it is what parseFrame does. */
  lemma UpdateParsesAccepted(buffer: seq<byte>, length: nat, pending: seq<byte>, output: seq<byte>, t: seq<Register>, id: byte, crc: Crc)
    requires |buffer| == FrameCapacity && |output| == FrameCapacity && length <= FrameCapacity
    requires WellKinded(t) && UpdateFits(buffer, length, pending, output, t, id, crc)
    requires Accepted(Receive(buffer, length, pending, output, id, crc), id, crc)
    ensures var p, u := Receive(buffer, length, pending, output, id, crc), UpdateSpec(buffer, length, pending, output, t, id, crc);
      && p.buffer[0] == id
      && p.buffer[..p.length] == Sealed(p.buffer[..p.length - 2], crc)
      && Fits(p.buffer, t)
      && u.replies == Parse(p.buffer, output, t, id, crc).replies
      && u.bitWrites == Parse(p.buffer, output, t, id, crc).bitWrites
      && u.wordWrites == Parse(p.buffer, output, t, id, crc).wordWrites
      && u.output == Parse(p.buffer, output, t, id, crc).output
      && u.length == 0
  {
    var p := Receive(buffer, length, pending, output, id, crc);
    CompleteIsLong(buffer, length, pending, output, id, crc);
    CorruptedIffNotSealed(p.buffer, p.length, crc);
  }
}

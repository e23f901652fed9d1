/** Wire-level vocabulary of the Modbus RTU slave: bytes, 16-bit words in both
    byte orders, single bits inside a byte, the function and exception codes,
    and the way a reply is sealed with its CRC before it goes on the line.

    The CRC routine itself (`crc16` in src/ModbusRTU.h) is only declared in the
    header, so everything here takes it as a parameter of type `Crc`. */
module Wire {

  /** MODBUS_MAX_FRAME_LENGTH: both frame buffers hold exactly this many bytes. */
  const FrameCapacity: nat := 255

  /** A `uint8_t`: the unit of both frame buffers and of the line. */
  type byte = x: int | 0 <= x < 0x100

  /** A `uint16_t`: a register value, a register address or a CRC. */
  type uint16 = x: int | 0 <= x < 0x1_0000

  /** The checksum routine, left uninterpreted. */
  type Crc = seq<byte> -> uint16

  // Function codes understood by the slave.
  const ReadCoils: byte := 1
  const ReadDiscreteInputs: byte := 2
  const ReadHoldingRegisters: byte := 3
  const ReadInputRegisters: byte := 4
  const WriteSingleCoil: byte := 5
  const WriteSingleRegister: byte := 6
  const WriteMultipleCoils: byte := 15
  const WriteMultipleRegisters: byte := 16
  /** Added (not or-ed) to the request's function code in an exception reply. */
  const ExceptionOffset: byte := 128

  // Exception codes.
  const IllegalFunction: byte := 1
  const IllegalDataAddress: byte := 2
  const IllegalDataValue: byte := 3

  /** High byte of a word. */
  function Hi(w: uint16): byte { w / 0x100 }

  /** Low byte of a word. */
  function Lo(w: uint16): byte { w % 0x100 }

  /** The word whose high byte is `hi` and whose low byte is `lo`: a big-endian
      word read from the wire as `Word(frame[i], frame[i + 1])`, a little-endian
      one (the trailing CRC) as `Word(frame[i + 1], frame[i])`. */
  function Word(hi: byte, lo: byte): uint16
  {
    hi * 0x100 + lo
  }

  /** Joining two bytes into a word and splitting it again gives the bytes back. */
  lemma BytesOfWord(hi: byte, lo: byte)
    ensures Hi(Word(hi, lo)) == hi && Lo(Word(hi, lo)) == lo
  {
  }

  /** Splitting a word into its bytes and joining them again gives the word back. */
  lemma WordOfBytes(w: uint16)
    ensures Word(Hi(w), Lo(w)) == w
  {
  }

  /** Two bytes determine a word and a word determines its two bytes. */
  lemma WordInjective(h1: byte, l1: byte, h2: byte, l2: byte)
    ensures Word(h1, l1) == Word(h2, l2) <==> h1 == h2 && l1 == l2
  {
  }

  /** 1 << p: the value with only bit `p` set (0 = least significant). */
  function Mask(p: nat): (m: nat)
    ensures 0 < m
  {
    if p == 0 then 1 else 2 * Mask(p - 1)
  }

  /** BIT_CHECK: is bit `p` of `b` set? Bit 0 is the parity of `b`, bit p + 1
      is bit p of `b` shifted right by one. */
  function TestBit(b: nat, p: nat): bool
  {
    if p == 0 then b % 2 == 1 else TestBit(b / 2, p - 1)
  }

  /** Setting a clear bit p adds 1 << p and changes no other bit. */
  lemma {:induction false} SetClearBit(b: nat, p: nat, q: nat)
    requires !TestBit(b, p)
    ensures TestBit(b + Mask(p), q) == (q == p || TestBit(b, q))
  {
    if p == 0 {
      if q != 0 {
        assert (b + 1) / 2 == b / 2;
      }
    } else if q != 0 {
      assert (b + Mask(p)) / 2 == b / 2 + Mask(p - 1);
      SetClearBit(b / 2, p - 1, q - 1);
    }
  }

  /** A set bit p contributes 1 << p: taking it away leaves the bit clear. */
  lemma {:induction false} ClearSetBit(b: nat, p: nat)
    requires TestBit(b, p)
    ensures Mask(p) <= b && !TestBit(b - Mask(p), p)
  {
    if p != 0 {
      ClearSetBit(b / 2, p - 1);
      assert (b - Mask(p)) / 2 == b / 2 - Mask(p - 1);
    }
  }

  /** A clear bit p of a value below 1 << n, p < n, leaves room to set it. */
  lemma {:induction false} ClearBitRoom(b: nat, p: nat, n: nat)
    requires p < n && b < Mask(n) && !TestBit(b, p)
    ensures b + Mask(p) < Mask(n)
  {
    if p != 0 {
      ClearBitRoom(b / 2, p - 1, n - 1);
    }
  }

  /** Below 1 << (p + 1), bit p is set exactly from 1 << p on. */
  lemma {:induction false} TopBit(b: nat, p: nat)
    requires b < 2 * Mask(p)
    ensures TestBit(b, p) <==> Mask(p) <= b
  {
    if p != 0 {
      TopBit(b / 2, p - 1);
    }
  }

  /** BIT_SET when `v` holds, BIT_RESET otherwise. */
  function AssignBit(b: byte, p: nat, v: bool): (r: byte)
    requires p < 8
    ensures TestBit(r, p) == v
    ensures forall q {:trigger TestBit(r, q)} :: q != p ==> TestBit(r, q) == TestBit(b, q)
  {
    if TestBit(b, p) == v then b
    else if v then
      assert Mask(8) == 0x100;
      ClearBitRoom(b, p, 8);
      SetClearBit(b, p, p);
      assert forall q :: TestBit(b + Mask(p), q) == (q == p || TestBit(b, q)) by {
        forall q { SetClearBit(b, p, q); }
      }
      b + Mask(p)
    else
      ClearSetBit(b, p);
      var c := b - Mask(p);
      assert forall q :: TestBit(b, q) == (q == p || TestBit(c, q)) by {
        forall q ensures TestBit(c + Mask(p), q) == (q == p || TestBit(c, q)) {
          SetClearBit(c, p, q);
        }
      }
      c
  }

  /** Two values below 1 << n with the same n low bits are equal. */
  lemma {:induction false} BitsDetermine(a: nat, b: nat, n: nat)
    requires a < Mask(n) && b < Mask(n)
    requires forall q :: 0 <= q < n ==> TestBit(a, q) == TestBit(b, q)
    ensures a == b
  {
    if n != 0 {
      assert TestBit(a, 0) == TestBit(b, 0);
      forall q | 0 <= q < n - 1 ensures TestBit(a / 2, q) == TestBit(b / 2, q) {
        assert TestBit(a, q + 1) == TestBit(b, q + 1);
      }
      BitsDetermine(a / 2, b / 2, n - 1);
    }
  }

  /** A byte is determined by its eight bits. */
  lemma BitsDetermineByte(a: byte, b: byte)
    requires forall q :: 0 <= q < 8 ==> TestBit(a, q) == TestBit(b, q)
    ensures a == b
  {
    assert Mask(8) == 0x100;
    BitsDetermine(a, b, 8);
  }

  /** The bytes a frame with the given payload occupies on the line: the
      payload, then the CRC over exactly the payload, low byte first. */
  function Sealed(payload: seq<byte>, crc: Crc): (frame: seq<byte>)
    ensures |frame| == |payload| + 2 && frame[..|payload|] == payload
    ensures Word(frame[|payload| + 1], frame[|payload|]) == crc(payload)
  {
    payload + [Lo(crc(payload)), Hi(crc(payload))]
  }

  /** What sendFrame leaves in the buffer: the CRC over the first `n` bytes
      stored little-endian at positions `n` and `n + 1`. */
  function PutCrc(buffer: seq<byte>, n: nat, crc: Crc): seq<byte>
    requires n + 2 <= |buffer|
  {
    buffer[n := Lo(crc(buffer[..n]))][n + 1 := Hi(crc(buffer[..n]))]
  }

  /** The first `n + 2` bytes of the buffer after PutCrc are exactly the sealed
      payload, and nothing past them has moved. */
  lemma PutCrcSeals(buffer: seq<byte>, n: nat, crc: Crc)
    requires n + 2 <= |buffer|
    ensures |PutCrc(buffer, n, crc)| == |buffer|
    ensures PutCrc(buffer, n, crc)[..n + 2] == Sealed(buffer[..n], crc)
    ensures PutCrc(buffer, n, crc)[n + 2..] == buffer[n + 2..]
  {
    var r := PutCrc(buffer, n, crc);
    assert r[..n] == buffer[..n];
  }

  /** The first three bytes of a reply: slave address, function byte and a
      third byte (byte count or exception code). */
  function WithHeader(buffer: seq<byte>, id: byte, fc: byte, third: byte): (r: seq<byte>)
    requires 3 <= |buffer|
    ensures |r| == |buffer| && r[..3] == [id, fc, third] && r[3..] == buffer[3..]
  {
    buffer[0 := id][1 := fc][2 := third]
  }

  /** The output buffer after throwException: header [id, function + 128, code]
      and its CRC in bytes 3 and 4; bytes 5 and up are untouched. */
  function ExceptionBuffer(buffer: seq<byte>, id: byte, fc: byte, code: byte, crc: Crc): seq<byte>
    requires |buffer| == FrameCapacity
  {
    PutCrc(WithHeader(buffer, id, ExceptionByte(fc), code), 3, crc)
  }

  /** The function byte of an exception reply: the request's code plus 128,
      kept to eight bits. */
  function ExceptionByte(fc: byte): byte {
    (fc + ExceptionOffset) % 0x100
  }

  /** The addition flips the top bit of the code and keeps the other seven:
      a request code that already has its top bit set comes back with that
      bit cleared. */
  lemma ExceptionByteWraps(fc: byte)
    ensures fc < 128 ==> ExceptionByte(fc) == fc + 128
    ensures fc >= 128 ==> ExceptionByte(fc) == fc - 128
    ensures TestBit(ExceptionByte(fc), 7) == !TestBit(fc, 7)
    ensures forall q :: 0 <= q < 7 ==> TestBit(ExceptionByte(fc), q) == TestBit(fc, q)
  {
    assert Mask(7) == 128;
    TopBit(fc, 7);
    if fc < 128 {
      forall q { SetClearBit(fc, 7, q); }
    } else {
      ClearSetBit(fc, 7);
      var c := fc - 128;
      forall q ensures TestBit(c + Mask(7), q) == (q == 7 || TestBit(c, q)) {
        SetClearBit(c, 7, q);
      }
    }
  }

  /** The frame throwException puts on the line. */
  function ExceptionFrame(id: byte, fc: byte, code: byte, crc: Crc): seq<byte>
  {
    Sealed([id, ExceptionByte(fc), code], crc)
  }

  /** throwException sends exactly the five-byte exception frame, and leaves
      the buffer past it alone. */
  lemma ExceptionBufferSends(buffer: seq<byte>, id: byte, fc: byte, code: byte, crc: Crc)
    requires |buffer| == FrameCapacity
    ensures |ExceptionBuffer(buffer, id, fc, code, crc)| == FrameCapacity
    ensures ExceptionBuffer(buffer, id, fc, code, crc)[..5] == ExceptionFrame(id, fc, code, crc)
    ensures ExceptionBuffer(buffer, id, fc, code, crc)[5..] == buffer[5..]
    ensures |ExceptionFrame(id, fc, code, crc)| == 5
    ensures ExceptionFrame(id, fc, code, crc)[..3] == [id, ExceptionByte(fc), code]
  {
    var h := WithHeader(buffer, id, ExceptionByte(fc), code);
    PutCrcSeals(h, 3, crc);
    assert h[..3] == [id, ExceptionByte(fc), code];
  }
}

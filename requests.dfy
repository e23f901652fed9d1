/** What parseFrame does with one validated request, as a value: the new
    contents of the output buffer, the frames written to the line, and the
    writes made through the register table, in the order they are made.

    Each handler walks the addressed range from its first register and stops at
    the first one that is missing or of the wrong kind; the writes made before
    that point are kept. The request's quantity is not checked against the
    buffers, so the `...Fit` predicates state which quantities keep every index
    the handler touches inside the 255-byte buffers. */
module Requests {
  import opened Wire
  import opened Registers

  datatype Effect = Effect(
    output: seq<byte>,
    replies: seq<seq<byte>>,
    bitWrites: seq<(BitCell, bool)>,
    wordWrites: seq<(WordCell, uint16)>)

  /** Bytes 2-3 of a request: the first register address, big-endian. */
  function StartOf(f: seq<byte>): uint16
    requires 6 <= |f|
  {
    Word(f[2], f[3])
  }

  /** Bytes 4-5 of a request: the quantity of registers, big-endian. */
  function QuantityOf(f: seq<byte>): (n: nat)
    requires 6 <= |f|
    ensures n < 0x1_0000
  {
    Word(f[4], f[5])
  }

  /** Byte count of a coil or discrete-input reply: ceil(n / 8) kept to 8 bits. */
  function BitByteCount(n: nat): (count: nat)
    ensures count < 256
    ensures n <= 2040 ==> count * 8 >= n && (n == 0 || (count - 1) * 8 < n)
  {
    (n + 7) / 8 % 256
  }

  /** Byte count of a register reply: 2n kept to 8 bits. */
  function WordByteCount(n: nat): (count: nat)
    ensures count < 256
    ensures n < 128 ==> count == 2 * n
  {
    2 * n % 256
  }

  /** The values of the bit cells at start, ..., start + k - 1. */
  function BitValues(t: seq<Register>, start: uint16, k: nat, kind: RegisterType): (vals: seq<bool>)
    reads BitCells(t)
    requires WellKinded(t) && IsBitKind(kind) && k < 0x1_0000
    requires forall j {:trigger Resolves(t, Address(start, j), kind)} :: 0 <= j < k ==> Resolves(t, Address(start, j), kind)
    ensures |vals| == k
  {
    if k == 0 then []
    else BitValues(t, start, k - 1, kind) + [BitCellAt(t, Address(start, k - 1), kind).value]
  }

  /** Each value of BitValues is the value of the cell at its address. */
  lemma {:induction false} BitValuesCells(t: seq<Register>, start: uint16, k: nat, kind: RegisterType)
    requires WellKinded(t) && IsBitKind(kind) && k < 0x1_0000
    requires forall j {:trigger Resolves(t, Address(start, j), kind)} :: 0 <= j < k ==> Resolves(t, Address(start, j), kind)
    ensures forall j :: 0 <= j < k ==> BitValues(t, start, k, kind)[j] == BitCellAt(t, Address(start, j), kind).value
  {
    if k > 0 {
      BitValuesCells(t, start, k - 1, kind);
    }
  }

  /** Value j of BitValues is the value of the cell at address j. */
  lemma BitValueAt(t: seq<Register>, start: uint16, k: nat, kind: RegisterType, j: nat)
    requires WellKinded(t) && IsBitKind(kind) && j < k < 0x1_0000
    requires forall j {:trigger Resolves(t, Address(start, j), kind)} :: 0 <= j < k ==> Resolves(t, Address(start, j), kind)
    ensures BitValues(t, start, k, kind)[j] == BitCellAt(t, Address(start, j), kind).value
  {
    BitValuesCells(t, start, k, kind);
  }

  /** The values of the word cells at start, ..., start + k - 1. */
  function WordValues(t: seq<Register>, start: uint16, k: nat, kind: RegisterType): (vals: seq<uint16>)
    reads WordCells(t)
    requires WellKinded(t) && IsWordKind(kind) && k < 0x1_0000
    requires forall j {:trigger Resolves(t, Address(start, j), kind)} :: 0 <= j < k ==> Resolves(t, Address(start, j), kind)
    ensures |vals| == k
  {
    if k == 0 then []
    else WordValues(t, start, k - 1, kind) + [WordCellAt(t, Address(start, k - 1), kind).value]
  }

  /** Each value of WordValues is the value of the cell at its address. */
  lemma {:induction false} WordValuesCells(t: seq<Register>, start: uint16, k: nat, kind: RegisterType)
    requires WellKinded(t) && IsWordKind(kind) && k < 0x1_0000
    requires forall j {:trigger Resolves(t, Address(start, j), kind)} :: 0 <= j < k ==> Resolves(t, Address(start, j), kind)
    ensures forall j :: 0 <= j < k ==> WordValues(t, start, k, kind)[j] == WordCellAt(t, Address(start, j), kind).value
  {
    if k > 0 {
      WordValuesCells(t, start, k - 1, kind);
    }
  }

  /** Value j of WordValues is the value of the cell at address j. */
  lemma WordValueAt(t: seq<Register>, start: uint16, k: nat, kind: RegisterType, j: nat)
    requires WellKinded(t) && IsWordKind(kind) && j < k < 0x1_0000
    requires forall j {:trigger Resolves(t, Address(start, j), kind)} :: 0 <= j < k ==> Resolves(t, Address(start, j), kind)
    ensures WordValues(t, start, k, kind)[j] == WordCellAt(t, Address(start, j), kind).value
  {
    WordValuesCells(t, start, k, kind);
  }

  /** Every byte index 3 + i / 8 with i < count lies inside a buffer of `size`. */
  predicate BitsFit(count: nat, size: nat) {
    count == 0 || 3 + (count - 1) / 8 < size
  }

  /** Every byte index 3 + 2i and 4 + 2i with i < count lies inside `size`. */
  predicate WordsFit(count: nat, size: nat) {
    count == 0 || 4 + 2 * (count - 1) < size
  }

  /** The reply buffer after the read loop has set or reset bit i % 8 of byte
      3 + i / 8 to vals[i], for i = 0, 1, ... in turn. */
  function PackBits(out: seq<byte>, vals: seq<bool>): (r: seq<byte>)
    requires BitsFit(|vals|, |out|)
    ensures |r| == |out|
  {
    if vals == [] then out
    else
      var i := |vals| - 1;
      var o := PackBits(out, vals[..i]);
      o[3 + i / 8 := AssignBit(o[3 + i / 8], i % 8, vals[i])]
  }

  /** One more step of the read loop: packing vals[..i + 1] is packing
      vals[..i] and then storing vals[i] at bit i % 8 of byte 3 + i / 8. */
  lemma PackBitsNext(out: seq<byte>, vals: seq<bool>, i: nat)
    requires i < |vals| && BitsFit(|vals|, |out|)
    ensures BitsFit(i, |out|) && 3 + i / 8 < |out|
    ensures var o := PackBits(out, vals[..i]);
      PackBits(out, vals[..i + 1]) == o[3 + i / 8 := AssignBit(o[3 + i / 8], i % 8, vals[i])]
  {
    assert vals[..i + 1][..i] == vals[..i];
  }

  /** One step of the bit read loop: storing the value of the cell at
      start + i at bit i % 8 of byte 3 + i / 8 of the buffer packed so far
      packs one more value. */
  lemma PackBitsStep(out: seq<byte>, t: seq<Register>, start: uint16, k: nat, kind: RegisterType, i: nat, reply: seq<byte>, value: bool)
    requires WellKinded(t) && IsBitKind(kind) && i < k < 0x1_0000 && BitsFit(k, |out|)
    requires forall j {:trigger Resolves(t, Address(start, j), kind)} :: 0 <= j < k ==> Resolves(t, Address(start, j), kind)
    requires reply == PackBits(out, BitValues(t, start, k, kind)[..i])
    requires value == BitCellAt(t, Address(start, i), kind).value
    ensures 3 + i / 8 < |reply|
    ensures reply[3 + i / 8 := AssignBit(reply[3 + i / 8], i % 8, value)] == PackBits(out, BitValues(t, start, k, kind)[..i + 1])
  {
    BitValueAt(t, start, k, kind, i);
    PackBitsNext(out, BitValues(t, start, k, kind), i);
  }

  /** Bit p of data byte b holds value 8b + p when there is one; the bits past
      the last value keep whatever the buffer held before. */
  lemma {:induction false} PackBitsLayout(out: seq<byte>, vals: seq<bool>, b: nat, p: nat)
    requires BitsFit(|vals|, |out|) && 3 + b < |out| && p < 8
    ensures TestBit(PackBits(out, vals)[3 + b], p) ==
      if 8 * b + p < |vals| then vals[8 * b + p] else TestBit(out[3 + b], p)
  {
    if vals != [] {
      var i := |vals| - 1;
      PackBitsLayout(out, vals[..i], b, p);
      BitPosition(i, b, p);
    }
  }

  /** Value i goes to bit p of data byte b exactly when i = 8b + p. */
  lemma BitPosition(i: nat, b: nat, p: nat)
    requires p < 8
    ensures i / 8 == b && i % 8 == p <==> i == 8 * b + p
    ensures i / 8 == b ==> 8 * b <= i < 8 * b + 8
  {
  }

  /** Bytes outside 3 .. 3 + ceil(|vals| / 8) - 1 are not touched. */
  lemma {:induction false} PackBitsElsewhere(out: seq<byte>, vals: seq<bool>, j: nat)
    requires BitsFit(|vals|, |out|) && j < |out|
    requires j < 3 || 3 + (|vals| + 7) / 8 <= j
    ensures PackBits(out, vals)[j] == out[j]
  {
    if vals != [] {
      PackBitsElsewhere(out, vals[..|vals| - 1], j);
    }
  }

  /** The reply buffer after the read loop has stored vals[i] big-endian in
      bytes 3 + 2i and 4 + 2i, for i = 0, 1, ... in turn. */
  function PackWords(out: seq<byte>, vals: seq<uint16>): (r: seq<byte>)
    requires WordsFit(|vals|, |out|)
    ensures |r| == |out|
  {
    if vals == [] then out
    else
      var i := |vals| - 1;
      var o := PackWords(out, vals[..i]);
      o[3 + 2 * i := Hi(vals[i])][4 + 2 * i := Lo(vals[i])]
  }

  /** One more step of the read loop: packing vals[..i + 1] is packing
      vals[..i] and then storing vals[i] big-endian at 3 + 2i and 4 + 2i. */
  lemma {:induction false} PackWordsNext(out: seq<byte>, vals: seq<uint16>, i: nat)
    requires i < |vals| && WordsFit(|vals|, |out|)
    ensures WordsFit(i, |out|) && 4 + 2 * i < |out|
    ensures var o := PackWords(out, vals[..i]);
      PackWords(out, vals[..i + 1]) == o[3 + 2 * i := Hi(vals[i])][4 + 2 * i := Lo(vals[i])]
  {
    assert vals[..i + 1][..i] == vals[..i];
  }

  /** One step of the register read loop: storing the value of the cell at
      start + i big-endian at 3 + 2i and 4 + 2i of the buffer packed so far
      packs one more value. */
  lemma PackWordsStep(out: seq<byte>, t: seq<Register>, start: uint16, k: nat, kind: RegisterType, i: nat, reply: seq<byte>, value: uint16)
    requires WellKinded(t) && IsWordKind(kind) && i < k < 0x1_0000 && WordsFit(k, |out|)
    requires forall j {:trigger Resolves(t, Address(start, j), kind)} :: 0 <= j < k ==> Resolves(t, Address(start, j), kind)
    requires reply == PackWords(out, WordValues(t, start, k, kind)[..i])
    requires value == WordCellAt(t, Address(start, i), kind).value
    ensures 4 + 2 * i < |reply|
    ensures reply[3 + 2 * i := Hi(value)][4 + 2 * i := Lo(value)] == PackWords(out, WordValues(t, start, k, kind)[..i + 1])
  {
    WordValueAt(t, start, k, kind, i);
    PackWordsNext(out, WordValues(t, start, k, kind), i);
  }

  /** Word i sits big-endian in bytes 3 + 2i and 4 + 2i; every other byte keeps
      its old value. */
  lemma {:induction false} PackWordsLayout(out: seq<byte>, vals: seq<uint16>, j: nat)
    requires WordsFit(|vals|, |out|) && j < |out|
    ensures PackWords(out, vals)[j] ==
      if 3 <= j < 3 + 2 * |vals| then
        (if j % 2 == 1 then Hi(vals[(j - 3) / 2]) else Lo(vals[(j - 3) / 2]))
      else out[j]
  {
    if vals != [] {
      PackWordsLayout(out, vals[..|vals| - 1], j);
    }
  }

  /** The coil writes of a WriteMultipleCoils request that resolved k
      addresses: coil start + j gets bit j % 8 of data byte 7 + j / 8. */
  function CoilWrites(t: seq<Register>, start: uint16, k: nat, f: seq<byte>): (w: seq<(BitCell, bool)>)
    requires WellKinded(t) && k < 0x1_0000 && (k == 0 || 7 + (k - 1) / 8 < |f|)
    requires forall j {:trigger Resolves(t, Address(start, j), Coil)} :: 0 <= j < k ==> Resolves(t, Address(start, j), Coil)
    ensures |w| == k
    ensures forall j {:trigger w[j]} :: 0 <= j < k ==> w[j] == (BitCellAt(t, Address(start, j), Coil), TestBit(f[7 + j / 8], j % 8))
  {
    if k == 0 then []
    else CoilWrites(t, start, k - 1, f) + [(BitCellAt(t, Address(start, k - 1), Coil), TestBit(f[7 + (k - 1) / 8], (k - 1) % 8))]
  }

  /** The value coil cell `c` holds after the first k writes of a
      WriteMultipleCoils request, when it held `initial` before. */
  function CoilValueAfter(t: seq<Register>, start: uint16, k: nat, f: seq<byte>, c: BitCell, initial: bool): bool
    requires WellKinded(t) && k < 0x1_0000 && (k == 0 || 7 + (k - 1) / 8 < |f|)
    requires forall j {:trigger Resolves(t, Address(start, j), Coil)} :: 0 <= j < k ==> Resolves(t, Address(start, j), Coil)
  {
    if k == 0 then initial
    else if BitCellAt(t, Address(start, k - 1), Coil) == c then TestBit(f[7 + (k - 1) / 8], (k - 1) % 8)
    else CoilValueAfter(t, start, k - 1, f, c, initial)
  }

  /** Applying the writes one by one is taking the last write to the cell. */
  lemma {:induction false} CoilValueIsLatest(t: seq<Register>, start: uint16, k: nat, f: seq<byte>, c: BitCell, initial: bool)
    requires WellKinded(t) && k < 0x1_0000 && (k == 0 || 7 + (k - 1) / 8 < |f|)
    requires forall j {:trigger Resolves(t, Address(start, j), Coil)} :: 0 <= j < k ==> Resolves(t, Address(start, j), Coil)
    ensures CoilValueAfter(t, start, k, f, c, initial) == Latest(CoilWrites(t, start, k, f), c, initial)
    decreases k
  {
    if k > 0 {
      CoilValueIsLatest(t, start, k - 1, f, c, initial);
      LatestAppend(CoilWrites(t, start, k - 1, f), (BitCellAt(t, Address(start, k - 1), Coil), TestBit(f[7 + (k - 1) / 8], (k - 1) % 8)), c, initial);
    }
  }

  /** Every coil cell of the table holds what the first k writes leave in it,
      starting from the values in `init`. */
  ghost predicate CoilsAfter(t: seq<Register>, start: uint16, k: nat, f: seq<byte>, init: map<BitCell, bool>)
    reads BitCells(t)
  {
    && WellKinded(t) && k < 0x1_0000 && (k == 0 || 7 + (k - 1) / 8 < |f|)
    && (forall j {:trigger Resolves(t, Address(start, j), Coil)} :: 0 <= j < k ==> Resolves(t, Address(start, j), Coil))
    && forall c :: c in BitCells(t) ==> c in init && c.value == CoilValueAfter(t, start, k, f, c, init[c])
  }

  /** The register writes of a WriteMultipleRegisters request that resolved k
      addresses: register start + j gets the big-endian word at 7 + 2j. */
  function RegisterWrites(t: seq<Register>, start: uint16, k: nat, f: seq<byte>): (w: seq<(WordCell, uint16)>)
    requires WellKinded(t) && k < 0x1_0000 && (k == 0 || 8 + 2 * (k - 1) < |f|)
    requires forall j {:trigger Resolves(t, Address(start, j), HoldingRegister)} :: 0 <= j < k ==> Resolves(t, Address(start, j), HoldingRegister)
    ensures |w| == k
    ensures forall j {:trigger w[j]} :: 0 <= j < k ==> w[j] == (WordCellAt(t, Address(start, j), HoldingRegister), Word(f[7 + 2 * j], f[8 + 2 * j]))
  {
    if k == 0 then []
    else RegisterWrites(t, start, k - 1, f) + [(WordCellAt(t, Address(start, k - 1), HoldingRegister), Word(f[7 + 2 * (k - 1)], f[8 + 2 * (k - 1)]))]
  }

  /** The value holding-register cell `c` holds after the first k writes of
      a WriteMultipleRegisters request, when it held `initial` before. */
  function RegisterValueAfter(t: seq<Register>, start: uint16, k: nat, f: seq<byte>, c: WordCell, initial: uint16): uint16
    requires WellKinded(t) && k < 0x1_0000 && (k == 0 || 8 + 2 * (k - 1) < |f|)
    requires forall j {:trigger Resolves(t, Address(start, j), HoldingRegister)} :: 0 <= j < k ==> Resolves(t, Address(start, j), HoldingRegister)
  {
    if k == 0 then initial
    else if WordCellAt(t, Address(start, k - 1), HoldingRegister) == c then Word(f[7 + 2 * (k - 1)], f[8 + 2 * (k - 1)])
    else RegisterValueAfter(t, start, k - 1, f, c, initial)
  }

  /** Applying the writes one by one is taking the last write to the cell. */
  lemma {:induction false} RegisterValueIsLatest(t: seq<Register>, start: uint16, k: nat, f: seq<byte>, c: WordCell, initial: uint16)
    requires WellKinded(t) && k < 0x1_0000 && (k == 0 || 8 + 2 * (k - 1) < |f|)
    requires forall j {:trigger Resolves(t, Address(start, j), HoldingRegister)} :: 0 <= j < k ==> Resolves(t, Address(start, j), HoldingRegister)
    ensures RegisterValueAfter(t, start, k, f, c, initial) == Latest(RegisterWrites(t, start, k, f), c, initial)
    decreases k
  {
    if k > 0 {
      RegisterValueIsLatest(t, start, k - 1, f, c, initial);
      LatestAppend(RegisterWrites(t, start, k - 1, f), (WordCellAt(t, Address(start, k - 1), HoldingRegister), Word(f[7 + 2 * (k - 1)], f[8 + 2 * (k - 1)])), c, initial);
    }
  }

  /** Every word cell of the table holds what the first k writes leave in it,
      starting from the values in `init`. */
  ghost predicate RegistersAfter(t: seq<Register>, start: uint16, k: nat, f: seq<byte>, init: map<WordCell, uint16>)
    reads WordCells(t)
  {
    && WellKinded(t) && k < 0x1_0000 && (k == 0 || 8 + 2 * (k - 1) < |f|)
    && (forall j {:trigger Resolves(t, Address(start, j), HoldingRegister)} :: 0 <= j < k ==> Resolves(t, Address(start, j), HoldingRegister))
    && forall c :: c in WordCells(t) ==> c in init && c.value == RegisterValueAfter(t, start, k, f, c, init[c])
  }

  /** The value WriteSingleCoil stores: bytes 4-5 read as a host-order
      (little-endian) word and compared with `true`, that is with 1. */
  function SingleCoilValue(lo: byte, hi: byte): (on: bool)
    ensures on <==> lo == 1 && hi == 0
  {
    Word(hi, lo) == 1
  }

  /** An IllegalDataAddress exception for request `f` after `writes`. */
  function AddressException(f: seq<byte>, out: seq<byte>, id: byte, crc: Crc,
                            bitWrites: seq<(BitCell, bool)>, wordWrites: seq<(WordCell, uint16)>): Effect
    requires |f| == FrameCapacity && |out| == FrameCapacity
  {
    Effect(ExceptionBuffer(out, id, f[1], IllegalDataAddress, crc),
           [ExceptionFrame(id, f[1], IllegalDataAddress, crc)], bitWrites, wordWrites)
  }

  /** The frame a bit read sends: the output buffer with header
      [id, fc, count] and the values packed from byte 3, cut after the 8-bit
      length 3 + count, then sealed. */
  function BitsFrame(out: seq<byte>, id: byte, fc: byte, count: nat, vals: seq<bool>, crc: Crc): seq<byte>
    requires |out| == FrameCapacity && BitsFit(|vals|, FrameCapacity) && count < 256
    requires (3 + count) % 256 <= FrameCapacity
  {
    Sealed(PackBits(WithHeader(out, id, fc, count), vals)[..(3 + count) % 256], crc)
  }

  /** The frame a register read sends: header [id, fc, count], the words
      big-endian from byte 3, cut after the 8-bit length count + 3, sealed. */
  function WordsFrame(out: seq<byte>, id: byte, fc: byte, count: nat, vals: seq<uint16>, crc: Crc): seq<byte>
    requires |out| == FrameCapacity && WordsFit(|vals|, FrameCapacity) && count < 256
    requires (count + 3) % 256 <= FrameCapacity
  {
    Sealed(PackWords(WithHeader(out, id, fc, count), vals)[..(count + 3) % 256], crc)
  }

  predicate ReadBitsFit(f: seq<byte>, t: seq<Register>, kind: RegisterType)
    requires |f| == FrameCapacity
  {
    var n := QuantityOf(f);
    var k := LeadingResolved(t, StartOf(f), n, kind);
    BitsFit(k, FrameCapacity) && (k == n ==> (3 + BitByteCount(n)) % 256 + 2 <= FrameCapacity)
  }

  /** ReadCoils / ReadDiscreteInputs. */
  function ReadBitsEffect(f: seq<byte>, out: seq<byte>, t: seq<Register>, id: byte, crc: Crc, kind: RegisterType): Effect
    reads BitCells(t)
    requires |f| == FrameCapacity && |out| == FrameCapacity
    requires WellKinded(t) && IsBitKind(kind) && ReadBitsFit(f, t, kind)
  {
    var start, n := StartOf(f), QuantityOf(f);
    var count := BitByteCount(n);
    var k := LeadingResolved(t, start, n, kind);
    var packed := PackBits(WithHeader(out, id, f[1], count), BitValues(t, start, k, kind));
    if k == n then
      Effect(PutCrc(packed, (3 + count) % 256, crc), [BitsFrame(out, id, f[1], count, BitValues(t, start, n, kind), crc)], [], [])
    else
      AddressException(f, packed, id, crc, [], [])
  }

  /** The two outcomes of ReadBitsEffect, spelled out for the handler's proof:
      with every address resolved, the packed buffer sealed after its data
      bytes; otherwise the IllegalDataAddress exception. */
  lemma ReadBitsEffectParts(f: seq<byte>, out: seq<byte>, t: seq<Register>, id: byte, crc: Crc, kind: RegisterType,
                                              count: nat, complete: bool, packed: seq<byte>)
    requires |f| == FrameCapacity && |out| == FrameCapacity
    requires WellKinded(t) && IsBitKind(kind) && ReadBitsFit(f, t, kind)
    requires count == BitByteCount(QuantityOf(f))
    requires complete <==> LeadingResolved(t, StartOf(f), QuantityOf(f), kind) == QuantityOf(f)
    requires packed == PackBits(WithHeader(out, id, f[1], count),
                                BitValues(t, StartOf(f), LeadingResolved(t, StartOf(f), QuantityOf(f), kind), kind))
    ensures complete ==> (3 + count) % 256 + 2 <= FrameCapacity
    ensures complete ==>
      ReadBitsEffect(f, out, t, id, crc, kind) == Effect(PutCrc(packed, (3 + count) % 256, crc), [Sealed(packed[..(3 + count) % 256], crc)], [], [])
    ensures !complete ==>
      ReadBitsEffect(f, out, t, id, crc, kind) == Effect(ExceptionBuffer(packed, id, f[1], IllegalDataAddress, crc), [ExceptionFrame(id, f[1], IllegalDataAddress, crc)], [], [])
  {
  }

  predicate ReadWordsFit(f: seq<byte>, t: seq<Register>, kind: RegisterType)
    requires |f| == FrameCapacity
  {
    var n := QuantityOf(f);
    var k := LeadingResolved(t, StartOf(f), n, kind);
    WordsFit(k, FrameCapacity) && (k == n ==> (WordByteCount(n) + 3) % 256 + 2 <= FrameCapacity)
  }

  /** ReadHoldingRegisters / ReadInputRegisters. */
  function ReadWordsEffect(f: seq<byte>, out: seq<byte>, t: seq<Register>, id: byte, crc: Crc, kind: RegisterType): Effect
    reads WordCells(t)
    requires |f| == FrameCapacity && |out| == FrameCapacity
    requires WellKinded(t) && IsWordKind(kind) && ReadWordsFit(f, t, kind)
  {
    var start, n := StartOf(f), QuantityOf(f);
    var count := WordByteCount(n);
    var k := LeadingResolved(t, start, n, kind);
    var packed := PackWords(WithHeader(out, id, f[1], count), WordValues(t, start, k, kind));
    if k == n then
      Effect(PutCrc(packed, (count + 3) % 256, crc), [WordsFrame(out, id, f[1], count, WordValues(t, start, n, kind), crc)], [], [])
    else
      AddressException(f, packed, id, crc, [], [])
  }

  /** The two outcomes of ReadWordsEffect, spelled out for the handler's proof:
      with every address resolved, the packed buffer sealed after its data
      bytes; otherwise the IllegalDataAddress exception. */
  lemma ReadWordsEffectParts(f: seq<byte>, out: seq<byte>, t: seq<Register>, id: byte, crc: Crc, kind: RegisterType,
                                               count: nat, complete: bool, packed: seq<byte>)
    requires |f| == FrameCapacity && |out| == FrameCapacity
    requires WellKinded(t) && IsWordKind(kind) && ReadWordsFit(f, t, kind)
    requires count == WordByteCount(QuantityOf(f))
    requires complete <==> LeadingResolved(t, StartOf(f), QuantityOf(f), kind) == QuantityOf(f)
    requires packed == PackWords(WithHeader(out, id, f[1], count),
                                 WordValues(t, StartOf(f), LeadingResolved(t, StartOf(f), QuantityOf(f), kind), kind))
    ensures complete ==> (count + 3) % 256 + 2 <= FrameCapacity
    ensures complete ==>
      ReadWordsEffect(f, out, t, id, crc, kind) == Effect(PutCrc(packed, (count + 3) % 256, crc), [Sealed(packed[..(count + 3) % 256], crc)], [], [])
    ensures !complete ==>
      ReadWordsEffect(f, out, t, id, crc, kind) == Effect(ExceptionBuffer(packed, id, f[1], IllegalDataAddress, crc), [ExceptionFrame(id, f[1], IllegalDataAddress, crc)], [], [])
  {
  }

  /** WriteSingleCoil: store the value and echo the 8 request bytes. */
  function WriteSingleCoilEffect(f: seq<byte>, out: seq<byte>, t: seq<Register>, id: byte, crc: Crc): Effect
    requires |f| == FrameCapacity && |out| == FrameCapacity && WellKinded(t)
  {
    var a := StartOf(f);
    if Resolves(t, a, Coil) then
      Effect(out, [f[..8]], [(BitCellAt(t, a, Coil), SingleCoilValue(f[4], f[5]))], [])
    else
      AddressException(f, out, id, crc, [], [])
  }

  /** WriteSingleRegister: store the big-endian word and echo the 8 request bytes. */
  function WriteSingleRegisterEffect(f: seq<byte>, out: seq<byte>, t: seq<Register>, id: byte, crc: Crc): Effect
    requires |f| == FrameCapacity && |out| == FrameCapacity && WellKinded(t)
  {
    var a := StartOf(f);
    if Resolves(t, a, HoldingRegister) then
      Effect(out, [f[..8]], [], [(WordCellAt(t, a, HoldingRegister), Word(f[4], f[5]))])
    else
      AddressException(f, out, id, crc, [], [])
  }

  predicate WriteCoilsFit(f: seq<byte>, t: seq<Register>)
    requires |f| == FrameCapacity
  {
    var k := LeadingResolved(t, StartOf(f), QuantityOf(f), Coil);
    k == 0 || 7 + (k - 1) / 8 < FrameCapacity
  }

  /** WriteMultipleCoils: write the coils in address order; the reply is
      request bytes 0-5 with a CRC over them, sent from the input buffer, whose
      bytes 6-7 are put back afterwards. */
  function WriteCoilsEffect(f: seq<byte>, out: seq<byte>, t: seq<Register>, id: byte, crc: Crc): Effect
    requires |f| == FrameCapacity && |out| == FrameCapacity && WellKinded(t) && WriteCoilsFit(f, t)
  {
    var start, n := StartOf(f), QuantityOf(f);
    var k := LeadingResolved(t, start, n, Coil);
    var writes := CoilWrites(t, start, k, f);
    if k == n then Effect(out, [Sealed(f[..6], crc)], writes, [])
    else AddressException(f, out, id, crc, writes, [])
  }

  predicate WriteRegistersFit(f: seq<byte>, t: seq<Register>)
    requires |f| == FrameCapacity
  {
    var k := LeadingResolved(t, StartOf(f), QuantityOf(f), HoldingRegister);
    k == 0 || 8 + 2 * (k - 1) < FrameCapacity
  }

  /** WriteMultipleRegisters: write the registers in address order; the reply
      is request bytes 0-5 copied to the output buffer and sealed there. */
  function WriteRegistersEffect(f: seq<byte>, out: seq<byte>, t: seq<Register>, id: byte, crc: Crc): Effect
    requires |f| == FrameCapacity && |out| == FrameCapacity && WellKinded(t) && WriteRegistersFit(f, t)
  {
    var start, n := StartOf(f), QuantityOf(f);
    var k := LeadingResolved(t, start, n, HoldingRegister);
    var writes := RegisterWrites(t, start, k, f);
    if k == n then
      var copied := f[..6] + out[6..];
      Effect(PutCrc(copied, 6, crc), [Sealed(f[..6], crc)], [], writes)
    else AddressException(f, out, id, crc, [], writes)
  }

  /** The request keeps every buffer index its handler touches in range. */
  predicate Fits(f: seq<byte>, t: seq<Register>)
    requires |f| == FrameCapacity
  {
    if f[1] == ReadCoils then ReadBitsFit(f, t, Coil)
    else if f[1] == ReadDiscreteInputs then ReadBitsFit(f, t, DiscreteInput)
    else if f[1] == ReadHoldingRegisters then ReadWordsFit(f, t, HoldingRegister)
    else if f[1] == ReadInputRegisters then ReadWordsFit(f, t, InputRegister)
    else if f[1] == WriteMultipleCoils then WriteCoilsFit(f, t)
    else if f[1] == WriteMultipleRegisters then WriteRegistersFit(f, t)
    else true
  }

  /** parseFrame: dispatch on the function byte; any other code does nothing. */
  function Parse(f: seq<byte>, out: seq<byte>, t: seq<Register>, id: byte, crc: Crc): Effect
    reads BitCells(t), WordCells(t)
    requires |f| == FrameCapacity && |out| == FrameCapacity && WellKinded(t) && Fits(f, t)
  {
    if f[1] == ReadCoils then ReadBitsEffect(f, out, t, id, crc, Coil)
    else if f[1] == ReadDiscreteInputs then ReadBitsEffect(f, out, t, id, crc, DiscreteInput)
    else if f[1] == ReadHoldingRegisters then ReadWordsEffect(f, out, t, id, crc, HoldingRegister)
    else if f[1] == ReadInputRegisters then ReadWordsEffect(f, out, t, id, crc, InputRegister)
    else if f[1] == WriteSingleCoil then WriteSingleCoilEffect(f, out, t, id, crc)
    else if f[1] == WriteSingleRegister then WriteSingleRegisterEffect(f, out, t, id, crc)
    else if f[1] == WriteMultipleCoils then WriteCoilsEffect(f, out, t, id, crc)
    else if f[1] == WriteMultipleRegisters then WriteRegistersEffect(f, out, t, id, crc)
    else Effect(out, [], [], [])
  }

  function BitKindOf(fc: byte): RegisterType {
    if fc == ReadCoils then Coil else DiscreteInput
  }

  function WordKindOf(fc: byte): RegisterType {
    if fc == ReadHoldingRegisters then HoldingRegister else InputRegister
  }

  /** Data bit i of a read reply: bit i % 8 of byte 3 + i / 8. */
  function DataBit(frame: seq<byte>, i: nat): bool
    requires 3 + i / 8 < |frame|
  {
    TestBit(frame[3 + i / 8], i % 8)
  }

  /** Data word i of a read reply: bytes 3 + 2i and 4 + 2i, big-endian. */
  function DataWord(frame: seq<byte>, i: nat): uint16
    requires 4 + 2 * i < |frame|
  {
    Word(frame[3 + 2 * i], frame[4 + 2 * i])
  }

  /** Sealing the packed buffer after its last data byte gives a frame that
      keeps the header, carries vals[i] as data bit i, and leaves the unused
      bits of the last data byte as they were in the buffer. */
  lemma SealedBits(buffer: seq<byte>, vals: seq<bool>, crc: Crc)
    requires |buffer| == FrameCapacity && 3 + (|vals| + 7) / 8 + 2 <= FrameCapacity
    ensures BitsFit(|vals|, |buffer|)
    ensures var len := 3 + (|vals| + 7) / 8;
      var r := Sealed(PackBits(buffer, vals)[..len], crc);
      && r[..3] == buffer[..3]
      && (forall i :: 0 <= i < |vals| ==> DataBit(r, i) == vals[i])
      && (forall i :: |vals| <= i < 8 * ((|vals| + 7) / 8) ==> DataBit(r, i) == DataBit(buffer, i))
  {
    var len := 3 + (|vals| + 7) / 8;
    var packed := PackBits(buffer, vals);
    var r := Sealed(packed[..len], crc);
    forall i | 0 <= i < 8 * ((|vals| + 7) / 8)
      ensures DataBit(r, i) == if i < |vals| then vals[i] else DataBit(buffer, i)
    {
      PackBitsLayout(buffer, vals, i / 8, i % 8);
    }
    forall j | 0 <= j < 3 ensures r[j] == buffer[j] {
      PackBitsElsewhere(buffer, vals, j);
    }
  }

  /** Sealing the packed buffer after its last data word gives a frame that
      keeps the header and carries vals[i] as data word i. */
  lemma SealedWords(buffer: seq<byte>, vals: seq<uint16>, crc: Crc)
    requires |buffer| == FrameCapacity && 3 + 2 * |vals| + 2 <= FrameCapacity
    ensures WordsFit(|vals|, |buffer|)
    ensures var r := Sealed(PackWords(buffer, vals)[..3 + 2 * |vals|], crc);
      && r[..3] == buffer[..3]
      && (forall i :: 0 <= i < |vals| ==> DataWord(r, i) == vals[i])
  {
    var packed := PackWords(buffer, vals);
    var r := Sealed(packed[..3 + 2 * |vals|], crc);
    forall i | 0 <= i < |vals| ensures DataWord(r, i) == vals[i] {
      PackWordsLayout(buffer, vals, 3 + 2 * i);
      PackWordsLayout(buffer, vals, 4 + 2 * i);
      WordOfBytes(vals[i]);
    }
    forall j | 0 <= j < 3 ensures r[j] == buffer[j] {
      PackWordsLayout(buffer, vals, j);
    }
  }

  /** ReadCoils and ReadDiscreteInputs send exactly one frame and write no
      cell; when some address of the range does not resolve, that frame is the
      IllegalDataAddress exception. */
  lemma ReadBitsReplyShape(f: seq<byte>, out: seq<byte>, t: seq<Register>, id: byte, crc: Crc, kind: RegisterType)
    requires |f| == FrameCapacity && |out| == FrameCapacity && WellKinded(t)
    requires IsBitKind(kind) && ReadBitsFit(f, t, kind)
    ensures var e := ReadBitsEffect(f, out, t, id, crc, kind);
      && |e.replies| == 1 && e.bitWrites == [] && e.wordWrites == []
      && (LeadingResolved(t, StartOf(f), QuantityOf(f), kind) < QuantityOf(f) ==>
            e.replies[0] == ExceptionFrame(id, f[1], IllegalDataAddress, crc))
  {
  }

  /** A bit read whose whole range fits the buffer has ceil(n / 8) data bytes,
      and the 8-bit length 3 + count does not wrap. */
  lemma BitCountInRange(n: nat)
    requires BitsFit(n, FrameCapacity)
    ensures BitByteCount(n) == (n + 7) / 8 && (3 + BitByteCount(n)) % 256 == 3 + BitByteCount(n)
  {
  }

  /** A register read whose whole range fits the buffer has 2n data bytes,
      and the 8-bit length 2n + 3 does not wrap. */
  lemma WordCountInRange(n: nat)
    requires WordsFit(n, FrameCapacity)
    ensures WordByteCount(n) == 2 * n && (WordByteCount(n) + 3) % 256 == 2 * n + 3
  {
  }

  /** When 3 + count fits the buffer, the 8-bit length does not wrap. */
  lemma BitsFrameUnwrapped(out: seq<byte>, id: byte, fc: byte, vals: seq<bool>, count: nat, crc: Crc)
    requires |out| == FrameCapacity && count == (|vals| + 7) / 8 && 3 + count + 2 <= FrameCapacity
    ensures BitsFit(|vals|, FrameCapacity)
    ensures BitsFrame(out, id, fc, count, vals, crc) == Sealed(PackBits(WithHeader(out, id, fc, count), vals)[..3 + count], crc)
  {
    assert (3 + count) % 256 == 3 + count;
  }

  /** With count = ceil(|vals| / 8), BitsFrame carries value i as data bit i,
      and the unused bits of the last data byte come from the old buffer. */
  lemma BitsFrameLayout(out: seq<byte>, id: byte, fc: byte, vals: seq<bool>, count: nat, crc: Crc)
    requires |out| == FrameCapacity && count == (|vals| + 7) / 8 && 3 + count + 2 <= FrameCapacity
    ensures BitsFit(|vals|, FrameCapacity)
    ensures var r := BitsFrame(out, id, fc, count, vals, crc);
      && |r| == count + 5
      && r[..3] == [id, fc, count]
      && r == Sealed(r[..count + 3], crc)
      && (forall i :: 0 <= i < |vals| ==> DataBit(r, i) == vals[i])
      && (forall i :: |vals| <= i < 8 * count ==> DataBit(r, i) == DataBit(out, i))
  {
    var header := WithHeader(out, id, fc, count);
    BitsFrameUnwrapped(out, id, fc, vals, count, crc);
    SealedBits(header, vals, crc);
    forall i | |vals| <= i < 8 * count ensures DataBit(header, i) == DataBit(out, i) {
      assert header[3 + i / 8] == header[3..][i / 8];
    }
  }

  /** When every address start .. start + n - 1 is a coil (discrete input),
      the one reply is BitsFrame with ceil(n / 8) data bytes holding the
      cells' values in address order (laid out as BitsFrameLayout states). */
  lemma ReadBitsReply(f: seq<byte>, out: seq<byte>, t: seq<Register>, id: byte, crc: Crc, kind: RegisterType)
    requires |f| == FrameCapacity && |out| == FrameCapacity && WellKinded(t)
    requires IsBitKind(kind) && ReadBitsFit(f, t, kind)
    requires LeadingResolved(t, StartOf(f), QuantityOf(f), kind) == QuantityOf(f)
    ensures 3 + (QuantityOf(f) + 7) / 8 + 2 <= FrameCapacity
    ensures var vals := BitValues(t, StartOf(f), QuantityOf(f), kind);
      && (forall i :: 0 <= i < |vals| ==> vals[i] == BitCellAt(t, Address(StartOf(f), i), kind).value)
      && ReadBitsEffect(f, out, t, id, crc, kind).replies == [BitsFrame(out, id, f[1], (|vals| + 7) / 8, vals, crc)]
  {
    ReadBitsSendsFrame(f, out, t, id, crc, kind);
    BitValuesCells(t, StartOf(f), QuantityOf(f), kind);
  }

  /** The frame part of ReadBitsReply. */
  lemma ReadBitsSendsFrame(f: seq<byte>, out: seq<byte>, t: seq<Register>, id: byte, crc: Crc, kind: RegisterType)
    requires |f| == FrameCapacity && |out| == FrameCapacity && WellKinded(t)
    requires IsBitKind(kind) && ReadBitsFit(f, t, kind)
    requires LeadingResolved(t, StartOf(f), QuantityOf(f), kind) == QuantityOf(f)
    ensures 3 + (QuantityOf(f) + 7) / 8 + 2 <= FrameCapacity
    ensures var vals := BitValues(t, StartOf(f), QuantityOf(f), kind);
      ReadBitsEffect(f, out, t, id, crc, kind).replies == [BitsFrame(out, id, f[1], (|vals| + 7) / 8, vals, crc)]
  {
    BitCountInRange(QuantityOf(f));
  }

  /** ReadHoldingRegisters and ReadInputRegisters send exactly one frame and
      write no cell; when some address of the range does not resolve, that
      frame is the IllegalDataAddress exception. */
  lemma ReadWordsReplyShape(f: seq<byte>, out: seq<byte>, t: seq<Register>, id: byte, crc: Crc, kind: RegisterType)
    requires |f| == FrameCapacity && |out| == FrameCapacity && WellKinded(t)
    requires IsWordKind(kind) && ReadWordsFit(f, t, kind)
    ensures var e := ReadWordsEffect(f, out, t, id, crc, kind);
      && |e.replies| == 1 && e.bitWrites == [] && e.wordWrites == []
      && (LeadingResolved(t, StartOf(f), QuantityOf(f), kind) < QuantityOf(f) ==>
            e.replies[0] == ExceptionFrame(id, f[1], IllegalDataAddress, crc))
  {
  }

  /** With count = 2 |vals|, WordsFrame carries value i as data word i. */
  lemma WordsFrameLayout(out: seq<byte>, id: byte, fc: byte, vals: seq<uint16>, crc: Crc)
    requires |out| == FrameCapacity && 3 + 2 * |vals| + 2 <= FrameCapacity
    ensures WordsFit(|vals|, FrameCapacity)
    ensures var r := WordsFrame(out, id, fc, 2 * |vals|, vals, crc);
      && |r| == 2 * |vals| + 5
      && r[..3] == [id, fc, 2 * |vals|]
      && r == Sealed(r[..2 * |vals| + 3], crc)
      && (forall i :: 0 <= i < |vals| ==> DataWord(r, i) == vals[i])
  {
    assert (2 * |vals| + 3) % 256 == 3 + 2 * |vals|;
    SealedWords(WithHeader(out, id, fc, 2 * |vals|), vals, crc);
  }

  /** When every address of the range resolves, the one reply is WordsFrame
      with 2n data bytes holding the cells' values in address order (laid out
      as WordsFrameLayout states). */
  lemma ReadWordsReply(f: seq<byte>, out: seq<byte>, t: seq<Register>, id: byte, crc: Crc, kind: RegisterType)
    requires |f| == FrameCapacity && |out| == FrameCapacity && WellKinded(t)
    requires IsWordKind(kind) && ReadWordsFit(f, t, kind)
    requires LeadingResolved(t, StartOf(f), QuantityOf(f), kind) == QuantityOf(f)
    ensures 3 + 2 * QuantityOf(f) + 2 <= FrameCapacity
    ensures var vals := WordValues(t, StartOf(f), QuantityOf(f), kind);
      && (forall i :: 0 <= i < |vals| ==> vals[i] == WordCellAt(t, Address(StartOf(f), i), kind).value)
      && ReadWordsEffect(f, out, t, id, crc, kind).replies == [WordsFrame(out, id, f[1], 2 * |vals|, vals, crc)]
  {
    WordCountInRange(QuantityOf(f));
    WordValuesCells(t, StartOf(f), QuantityOf(f), kind);
  }

  /** WriteSingleCoil sends exactly one frame. If the address is a coil, the
      coil is set to true exactly when bytes 4-5 are 01 00 (so the standard
      ON value FF 00 stores false), and the 8 request bytes are echoed;
      otherwise nothing is written and the exception is sent. */
  lemma WriteSingleCoilReply(f: seq<byte>, out: seq<byte>, t: seq<Register>, id: byte, crc: Crc)
    requires |f| == FrameCapacity && |out| == FrameCapacity && WellKinded(t)
    requires f[1] == WriteSingleCoil
    ensures var e := Parse(f, out, t, id, crc);
      |e.replies| == 1 && e.wordWrites == [] &&
      if Resolves(t, StartOf(f), Coil) then
        e.replies[0] == f[..8] && e.output == out &&
        e.bitWrites == [(BitCellAt(t, StartOf(f), Coil), f[4] == 1 && f[5] == 0)]
      else
        e.replies[0] == ExceptionFrame(id, f[1], IllegalDataAddress, crc) && e.bitWrites == []
  {
  }

  /** WriteSingleRegister sends exactly one frame. If the address is a holding
      register it receives the big-endian word in bytes 4-5 and the 8 request
      bytes are echoed; otherwise nothing is written and the exception is sent. */
  lemma WriteSingleRegisterReply(f: seq<byte>, out: seq<byte>, t: seq<Register>, id: byte, crc: Crc)
    requires |f| == FrameCapacity && |out| == FrameCapacity && WellKinded(t)
    requires f[1] == WriteSingleRegister
    ensures var e := Parse(f, out, t, id, crc);
      |e.replies| == 1 && e.bitWrites == [] &&
      if Resolves(t, StartOf(f), HoldingRegister) then
        e.replies[0] == f[..8] && e.output == out &&
        e.wordWrites == [(WordCellAt(t, StartOf(f), HoldingRegister), Word(f[4], f[5]))]
      else
        e.replies[0] == ExceptionFrame(id, f[1], IllegalDataAddress, crc) && e.wordWrites == []
  {
  }

  /** WriteMultipleCoils writes coil start + j from bit j % 8 of byte 7 + j / 8,
      in ascending j, for every j before the first address that is not a coil.
      It then sends exactly one frame: request bytes 0-5 with a fresh CRC when
      all n addresses were coils, the exception otherwise. */
  lemma WriteCoilsReply(f: seq<byte>, out: seq<byte>, t: seq<Register>, id: byte, crc: Crc)
    requires |f| == FrameCapacity && |out| == FrameCapacity && WellKinded(t)
    requires f[1] == WriteMultipleCoils
    requires Fits(f, t)
    ensures var e, start, n := Parse(f, out, t, id, crc), StartOf(f), QuantityOf(f);
      var k := LeadingResolved(t, start, n, Coil);
      && |e.replies| == 1 && e.wordWrites == []
      && |e.bitWrites| == k
      && (forall j {:trigger e.bitWrites[j]} :: 0 <= j < k ==> e.bitWrites[j] == (BitCellAt(t, Address(start, j), Coil), TestBit(f[7 + j / 8], j % 8)))
      && (k == n ==> e.replies[0] == Sealed(f[..6], crc) && e.output == out)
      && (k < n ==> e.replies[0] == ExceptionFrame(id, f[1], IllegalDataAddress, crc))
  {
  }

  /** WriteMultipleRegisters writes register start + j from the big-endian word
      at bytes 7 + 2j, 8 + 2j, in ascending j, for every j before the first
      address that is not a holding register. It then sends exactly one frame:
      request bytes 0-5 with a fresh CRC when all n addresses were holding
      registers, the exception otherwise. */
  lemma WriteRegistersReply(f: seq<byte>, out: seq<byte>, t: seq<Register>, id: byte, crc: Crc)
    requires |f| == FrameCapacity && |out| == FrameCapacity && WellKinded(t)
    requires f[1] == WriteMultipleRegisters
    requires Fits(f, t)
    ensures var e, start, n := Parse(f, out, t, id, crc), StartOf(f), QuantityOf(f);
      var k := LeadingResolved(t, start, n, HoldingRegister);
      && |e.replies| == 1 && e.bitWrites == []
      && |e.wordWrites| == k
      && (forall j {:trigger e.wordWrites[j]} :: 0 <= j < k ==> e.wordWrites[j] == (WordCellAt(t, Address(start, j), HoldingRegister), Word(f[7 + 2 * j], f[8 + 2 * j])))
      && (k == n ==> e.replies[0] == Sealed(f[..6], crc) && e.output[..8] == Sealed(f[..6], crc))
      && (k < n ==> e.replies[0] == ExceptionFrame(id, f[1], IllegalDataAddress, crc))
  {
    var start, n := StartOf(f), QuantityOf(f);
    if LeadingResolved(t, start, n, HoldingRegister) == n {
      PutCrcSeals(f[..6] + out[6..], 6, crc);
      assert (f[..6] + out[6..])[..6] == f[..6];
    }
  }

  /** Codes other than the eight handled ones are ignored by parseFrame. */
  lemma ParseIgnoresOtherCodes(f: seq<byte>, out: seq<byte>, t: seq<Register>, id: byte, crc: Crc)
    requires |f| == FrameCapacity && |out| == FrameCapacity && WellKinded(t)
    requires !(ReadCoils <= f[1] <= WriteSingleRegister) && f[1] != WriteMultipleCoils && f[1] != WriteMultipleRegisters
    ensures Parse(f, out, t, id, crc) == Effect(out, [], [], [])
  {
  }
}

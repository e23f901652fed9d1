/** ModbusRTUSlave<registerCount>: the slave object whose fields mirror the
    C++ members. The serial port is `pending`, the bytes waiting to be read,
    and `sent`, the frames written so far. Every method is proved against the
    value-level description in Registers, Requests and Assembler. */
module Slave {
  import opened Wire
  import opened Registers
  import opened Requests
  import opened Assembler

  class ModbusSlave {
    /** The template parameter: the number of slots in the register array. */
    const registerCount: nat
    /** The checksum routine crc16. */
    const crc: Crc
    /** m_SlaveID */
    var slaveId: byte
    /** m_RegisterArray */
    const registers: array<Register>
    /** m_AssignedRegisters */
    var assignedRegisters: nat
    /** m_InputFrame and m_InputFrameLength */
    const inputFrame: array<byte>
    var inputFrameLength: nat
    /** m_OutputFrame */
    const outputFrame: array<byte>
    /** Bytes the serial port holds and has not yet handed over. */
    var pending: seq<byte>
    /** Every frame written to the serial port, in order. */
    ghost var sent: seq<seq<byte>>

    ghost predicate Valid()
      reads this`assignedRegisters, this`inputFrameLength, registers
    {
      && registers.Length == registerCount < 0x1_0000
      && inputFrame.Length == FrameCapacity && outputFrame.Length == FrameCapacity
      && inputFrame != outputFrame
      && registers as object != inputFrame && registers as object != outputFrame
      && assignedRegisters <= registerCount
      && inputFrameLength <= FrameCapacity
      && (forall i :: 0 <= i < registers.Length ==> KindFits(registers[i]))
      && Unique(registers[..assignedRegisters])
    }

    /** The slots findRegister searches: the first m_AssignedRegisters. */
    ghost function Table(): (t: seq<Register>)
      reads this`assignedRegisters, this`inputFrameLength, registers
      requires Valid()
      ensures |t| == assignedRegisters && WellKinded(t)
    {
      registers[..assignedRegisters]
    }

    /** A slave with every slot empty, no register assigned and slave id 0 (the
        C++ constructor leaves these members alone; they are zero as for an
        object in static storage); `input` is what the serial line will deliver. */
    constructor (registerCount: nat, crc: Crc, input: seq<byte>)
      requires registerCount < 0x1_0000
      ensures Valid() && fresh(registers) && fresh(inputFrame) && fresh(outputFrame)
      ensures this.registerCount == registerCount && this.crc == crc
      ensures assignedRegisters == 0 && Table() == [] && inputFrameLength == 0 && slaveId == 0
      ensures pending == input && sent == []
    {
      this.registerCount := registerCount;
      this.crc := crc;
      slaveId := 0;
      registers := new Register[registerCount](_ => Register(None, 0, Null));
      assignedRegisters := 0;
      inputFrame := new byte[FrameCapacity];
      outputFrame := new byte[FrameCapacity];
      inputFrameLength := 0;
      pending := input;
      sent := [];
    }

    /** findRegister: the first findable slot with that number, or Missing. */
    method FindRegister(address: uint16) returns (r: Lookup)
      requires Valid()
      ensures r == Find(Table(), address)
    {
      FindIsFirst(Table(), address);
      var i := 0;
      while i < assignedRegisters
        invariant i <= assignedRegisters
        invariant forall j :: 0 <= j < i ==> !Findable(registers[j], address)
      {
        var slot := registers[i];
        if slot.number == address && slot.data != Null && slot.kind != None {
          return Found(i);
        }
        i := i + 1;
      }
      return Missing;
    }

    /** addRegister: -1 when the array is full or the number is already
        findable, with nothing changed; otherwise the next slot is filled, the
        count grows by one and the register number is returned, as the add*
        wrappers document. */
    method AddRegister(data: Storage, address: uint16, kind: RegisterType) returns (r: int)
      requires Valid() && KindFits(Register(kind, address, data))
      modifies registers, this`assignedRegisters
      ensures Valid()
      ensures r == -1 <==> old(assignedRegisters) >= registerCount || Find(old(Table()), address).Found?
      ensures r == -1 ==> assignedRegisters == old(assignedRegisters) && registers[..] == old(registers[..])
      ensures r != -1 ==>
        && r == address && assignedRegisters == old(assignedRegisters) + 1
        && registers[..] == old(registers[..])[old(assignedRegisters) := Register(kind, address, data)]
        && Table() == old(Table()) + [Register(kind, address, data)]
        && (data != Null && kind != None ==> Find(Table(), address) == Found(old(assignedRegisters)))
    {
      if assignedRegisters >= registerCount {
        return -1;
      }
      var found := FindRegister(address);
      if found.Found? {
        return -1;
      }
      UniqueAfterAppend(Table(), Register(kind, address, data));
      registers[assignedRegisters] := Register(kind, address, data);
      assignedRegisters := assignedRegisters + 1;
      assert registers[..assignedRegisters] == old(Table()) + [Register(kind, address, data)];
      FindAfterAppend(old(Table()), Register(kind, address, data), address);
      r := address;
    }

    /** addCoil */
    method AddCoil(coil: BitCell?, address: uint16) returns (r: int)
      requires Valid()
      modifies registers, this`assignedRegisters
      ensures Valid()
      ensures r == -1 <==> old(assignedRegisters) >= registerCount || Find(old(Table()), address).Found?
      ensures r == -1 || r == address
      ensures Table() == if r == -1 then old(Table())
        else old(Table()) + [Register(Coil, address, if coil == null then Null else BitRef(coil))]
    {
      r := AddRegister(if coil == null then Null else BitRef(coil), address, Coil);
    }

    /** addDiscreteInput */
    method AddDiscreteInput(discreteInput: BitCell?, address: uint16) returns (r: int)
      requires Valid()
      modifies registers, this`assignedRegisters
      ensures Valid()
      ensures r == -1 <==> old(assignedRegisters) >= registerCount || Find(old(Table()), address).Found?
      ensures r == -1 || r == address
      ensures Table() == if r == -1 then old(Table())
        else old(Table()) + [Register(DiscreteInput, address, if discreteInput == null then Null else BitRef(discreteInput))]
    {
      r := AddRegister(if discreteInput == null then Null else BitRef(discreteInput), address, DiscreteInput);
    }

    /** addInputRegister */
    method AddInputRegister(inputRegister: WordCell?, address: uint16) returns (r: int)
      requires Valid()
      modifies registers, this`assignedRegisters
      ensures Valid()
      ensures r == -1 <==> old(assignedRegisters) >= registerCount || Find(old(Table()), address).Found?
      ensures r == -1 || r == address
      ensures Table() == if r == -1 then old(Table())
        else old(Table()) + [Register(InputRegister, address, if inputRegister == null then Null else WordRef(inputRegister))]
    {
      r := AddRegister(if inputRegister == null then Null else WordRef(inputRegister), address, InputRegister);
    }

    /** addHoldingRegister */
    method AddHoldingRegister(holdingRegister: WordCell?, address: uint16) returns (r: int)
      requires Valid()
      modifies registers, this`assignedRegisters
      ensures Valid()
      ensures r == -1 <==> old(assignedRegisters) >= registerCount || Find(old(Table()), address).Found?
      ensures r == -1 || r == address
      ensures Table() == if r == -1 then old(Table())
        else old(Table()) + [Register(HoldingRegister, address, if holdingRegister == null then Null else WordRef(holdingRegister))]
    {
      r := AddRegister(if holdingRegister == null then Null else WordRef(holdingRegister), address, HoldingRegister);
    }

    /** readBytes into m_InputFrame from `offset`: takes up to `max` waiting
        bytes, in order. */
    method ReadBytes(offset: nat, max: nat) returns (count: nat)
      requires Valid() && offset + max <= FrameCapacity
      modifies inputFrame, this`pending
      ensures Valid()
      ensures count == Taken(old(pending), max)
      ensures inputFrame[..] == Overwrite(old(inputFrame[..]), offset, old(pending)[..count])
      ensures pending == old(pending)[count..]
    {
      count := 0;
      while count < max && count < |pending|
        modifies inputFrame
        invariant count <= max && count <= |pending|
        invariant inputFrame[..] == Overwrite(old(inputFrame[..]), offset, pending[..count])
      {
        OverwriteOneMore(old(inputFrame[..]), offset, pending[..count], pending[count]);
        assert pending[..count + 1] == pending[..count] + [pending[count]];
        inputFrame[offset + count] := pending[count];
        count := count + 1;
      }
      pending := pending[count..];
    }

    /** begin: empty every slot (number kept, count kept), take the slave
        address, empty the input buffer and discard up to 255 waiting bytes. */
    method Begin(slaveId: byte := 1)
      requires Valid()
      modifies registers, this`slaveId, this`inputFrameLength, inputFrame, this`pending
      ensures Valid()
      ensures forall i :: 0 <= i < registers.Length ==> registers[i] == Cleared(old(registers[i]))
      ensures assignedRegisters == old(assignedRegisters)
      ensures forall a :: Find(Table(), a) == Missing
      ensures this.slaveId == slaveId && inputFrameLength == 0
      ensures var n := Taken(old(pending), FrameCapacity);
        inputFrame[..] == Overwrite(old(inputFrame[..]), 0, old(pending)[..n]) && pending == old(pending)[n..]
    {
      var i := 0;
      while i < registerCount
        modifies registers
        invariant i <= registerCount && Valid()
        invariant forall j :: 0 <= j < i ==> registers[j] == Cleared(old(registers[j]))
        invariant forall j :: i <= j < registerCount ==> registers[j] == old(registers[j])
      {
        registers[i] := Cleared(registers[i]);
        i := i + 1;
      }
      this.slaveId := slaveId;
      ClearInputFrame();
      var _ := ReadBytes(0, FrameCapacity);
    }

    /** clearInputFrame */
    method ClearInputFrame()
      requires Valid()
      modifies this`inputFrameLength
      ensures Valid() && inputFrameLength == 0
    {
      inputFrameLength := 0;
    }

    /** sendFrame: store the CRC of the first n bytes after them, low byte
        first, and write those n + 2 bytes. */
    method SendFrame(frame: array<byte>, n: nat)
      requires Valid() && (frame == inputFrame || frame == outputFrame) && n + 2 <= FrameCapacity
      modifies frame, this`sent
      ensures Valid()
      ensures frame[..] == PutCrc(old(frame[..]), n, crc)
      ensures sent == old(sent) + [Sealed(old(frame[..n]), crc)]
    {
      PutCrcSeals(frame[..], n, crc);
      var c := crc(frame[..n]);
      frame[n] := Lo(c);
      frame[n + 1] := Hi(c);
      sent := sent + [frame[..n + 2]];
    }

    /** throwException: [m_SlaveID, m_InputFrame[1] + 128, code] and its CRC. */
    method ThrowException(code: byte)
      requires Valid()
      modifies outputFrame, this`sent
      ensures Valid()
      ensures outputFrame[..] == ExceptionBuffer(old(outputFrame[..]), slaveId, inputFrame[1], code, crc)
      ensures sent == old(sent) + [ExceptionFrame(slaveId, inputFrame[1], code, crc)]
    {
      ExceptionBufferSends(outputFrame[..], slaveId, inputFrame[1], code, crc);
      outputFrame[0] := slaveId;
      outputFrame[1] := ExceptionByte(inputFrame[1]);
      outputFrame[2] := code;
      SendFrame(outputFrame, 3);
    }

    /** receiveFrame */
    method ReceiveFrame() returns (complete: bool)
      requires Valid()
      modifies inputFrame, outputFrame, this`inputFrameLength, this`pending, this`sent
      ensures Valid()
      ensures var p := Receive(old(inputFrame[..]), old(inputFrameLength), old(pending), old(outputFrame[..]), slaveId, crc);
        && inputFrame[..] == p.buffer && inputFrameLength == p.length && pending == p.pending
        && outputFrame[..] == p.output && sent == old(sent) + p.replies && complete == p.complete
    {
      ghost var buffer, length, input, output := inputFrame[..], inputFrameLength, pending, outputFrame[..];
      if pending != [] {
        var got := ReadBytes(inputFrameLength, FrameCapacity - inputFrameLength);
        inputFrameLength := inputFrameLength + got;
        ReceiveReads(buffer, length, input, output, slaveId, crc, inputFrame[..], inputFrameLength, pending);
        complete := Classified();
        return;
      }
      return false;
    }

    /** The tests receiveFrame makes once its read is done. */
    method Classified() returns (complete: bool)
      requires Valid()
      modifies inputFrame, outputFrame, this`inputFrameLength, this`pending, this`sent
      ensures Valid()
      ensures var p := Classify(old(inputFrame[..]), old(inputFrameLength), old(pending), old(outputFrame[..]), slaveId, crc);
        && inputFrame[..] == p.buffer && inputFrameLength == p.length && pending == p.pending
        && outputFrame[..] == p.output && sent == old(sent) + p.replies && complete == p.complete
    {
      ghost var buf, len, rest, output := inputFrame[..], inputFrameLength, pending, outputFrame[..];
      if inputFrameLength >= 2 {
        if ReadCoils <= inputFrame[1] <= WriteSingleRegister {
          return inputFrameLength == 8;
        } else if inputFrame[1] == WriteMultipleCoils || inputFrame[1] == WriteMultipleRegisters {
          return inputFrameLength == inputFrame[6] as int + 9;
        } else {
          RejectFunction();
        }
      }
      return false;
    }

    /** The unknown-code branch of receiveFrame: answer IllegalFunction, drain
        up to 255 waiting bytes into the buffer and empty it. */
    method RejectFunction()
      requires Valid()
      modifies inputFrame, outputFrame, this`inputFrameLength, this`pending, this`sent
      ensures Valid() && inputFrameLength == 0
      ensures outputFrame[..] == ExceptionBuffer(old(outputFrame[..]), slaveId, old(inputFrame[1]), IllegalFunction, crc)
      ensures sent == old(sent) + [ExceptionFrame(slaveId, old(inputFrame[1]), IllegalFunction, crc)]
      ensures var n := Taken(old(pending), FrameCapacity);
        inputFrame[..] == Overwrite(old(inputFrame[..]), 0, old(pending)[..n]) && pending == old(pending)[n..]
    {
      ThrowException(IllegalFunction);
      var _ := ReadBytes(0, FrameCapacity);
      ClearInputFrame();
    }

    /** Store a whole reply buffer into m_OutputFrame. */
    method StoreOutput(reply: seq<byte>)
      requires Valid() && |reply| == FrameCapacity
      modifies outputFrame
      ensures Valid() && outputFrame[..] == reply
    {
      forall j | 0 <= j < outputFrame.Length {
        outputFrame[j] := reply[j];
      }
    }

    /** The lookup of one loop step of codes 1 and 2: findRegister, the type
        test, and the cell's value when both succeed. */
    method ReadBitAt(kind: RegisterType, address: uint16) returns (found: bool, value: bool)
      requires Valid() && IsBitKind(kind)
      ensures found <==> Resolves(Table(), address, kind)
      ensures found ==> value == BitCellAt(Table(), address, kind).value
    {
      var cell := FindBitCell(kind, address);
      if cell == null {
        return false, false;
      }
      return true, cell.value;
    }

    /** findRegister followed by the type test of a coil or discrete-input
        handler: the `bool` cell the register is bound to, or null. */
    method FindBitCell(kind: RegisterType, address: uint16) returns (cell: BitCell?)
      requires Valid() && IsBitKind(kind)
      ensures cell != null <==> Resolves(Table(), address, kind)
      ensures cell != null ==> cell == BitCellAt(Table(), address, kind)
    {
      var slot := FindRegister(address);
      if slot.Found? && registers[slot.index].kind == kind {
        assert KindFits(registers[slot.index]);
        return registers[slot.index].data.bit;
      }
      return null;
    }

    /** findRegister followed by the type test of a register handler: the
        `uint16_t` cell the register is bound to, or null. */
    method FindWordCell(kind: RegisterType, address: uint16) returns (cell: WordCell?)
      requires Valid() && IsWordKind(kind)
      ensures cell != null <==> Resolves(Table(), address, kind)
      ensures cell != null ==> cell == WordCellAt(Table(), address, kind)
    {
      var slot := FindRegister(address);
      if slot.Found? && registers[slot.index].kind == kind {
        assert KindFits(registers[slot.index]);
        return registers[slot.index].data.word;
      }
      return null;
    }

    /** The lookup of one loop step of codes 3 and 4: findRegister, the type
        test, and the cell's value when both succeed. */
    method ReadWordAt(kind: RegisterType, address: uint16) returns (found: bool, value: uint16)
      requires Valid() && IsWordKind(kind)
      ensures found <==> Resolves(Table(), address, kind)
      ensures found ==> value == WordCellAt(Table(), address, kind).value
    {
      var cell := FindWordCell(kind, address);
      if cell == null {
        return false, 0;
      }
      return true, cell.value;
    }

    /** One pass of the loop of codes 1 and 2: look up address start + i
        and, when it is a register of `kind`, copy its cell's value into bit
        i % 8 of byte 3 + i / 8 of `reply`. `last` is the number of leading
        addresses of the range that are registers of `kind`, and `values`
        their cells' values. */
    method PackBitAt(kind: RegisterType, start: uint16, i: nat, header: seq<byte>, reply: seq<byte>, ghost last: nat, ghost values: seq<bool>)
      returns (found: bool, next: seq<byte>)
      requires Valid() && IsBitKind(kind) && i <= last < 0x1_0000 && |header| == FrameCapacity && BitsFit(last, FrameCapacity)
      requires i < last || !Resolves(Table(), Address(start, i), kind)
      requires forall j {:trigger Resolves(Table(), Address(start, j), kind)} :: 0 <= j < last ==> Resolves(Table(), Address(start, j), kind)
      requires values == BitValues(Table(), start, last, kind)
      requires reply == PackBits(header, values[..i])
      ensures found <==> i < last
      ensures found ==> next == PackBits(header, values[..i + 1])
    {
      var value;
      found, value := ReadBitAt(kind, Address(start, i));
      if !found {
        return found, reply;
      }
      PackBitsStep(header, Table(), start, last, kind, i, reply, value);
      next := reply[3 + i / 8 := AssignBit(reply[3 + i / 8], i % 8, value)];
    }

    /** The loop of codes 1 and 2: pack bit after bit while the addresses
        start, start + 1, ... are registers of `kind`; `complete` tells
        whether all n addresses were found. */
    method PackBitRange(kind: RegisterType, start: uint16, n: nat, header: seq<byte>) returns (reply: seq<byte>, complete: bool)
      requires Valid() && IsBitKind(kind) && n < 0x1_0000 && |header| == FrameCapacity
      requires BitsFit(LeadingResolved(Table(), start, n, kind), FrameCapacity)
      ensures complete <==> old(LeadingResolved(Table(), start, n, kind)) == n
      ensures reply == old(PackBits(header, BitValues(Table(), start, LeadingResolved(Table(), start, n, kind), kind)))
    {
      ghost var t := Table();
      ghost var last := LeadingResolved(t, start, n, kind);
      ghost var vals := BitValues(t, start, last, kind);
      reply := header;
      var i := 0;
      while i < n
        invariant i <= last
        invariant reply == PackBits(header, vals[..i])
      {
        ResolvedBefore(t, start, n, kind, i);
        var found, next := PackBitAt(kind, start, i, header, reply, last, vals);
        if !found {
          break;
        }
        reply, i := next, i + 1;
      }
      assert i == last && vals[..i] == vals;
      return reply, i == n;
    }

    /** Codes 1 and 2 of parseFrame: write the header, pack the cells' values
        bit by bit, and answer IllegalDataAddress at the first address that
        is not a register of `kind`, or send the packed reply. */
    method ReadBits(kind: RegisterType)
      requires Valid() && IsBitKind(kind) && ReadBitsFit(inputFrame[..], Table(), kind)
      modifies outputFrame, this`sent
      ensures Valid()
      ensures var e := old(ReadBitsEffect(inputFrame[..], outputFrame[..], Table(), slaveId, crc, kind));
        outputFrame[..] == e.output && sent == old(sent) + e.replies
    {
      ghost var f, out, t, id := inputFrame[..], outputFrame[..], Table(), slaveId;
      var start, n := StartOf(inputFrame[..]), QuantityOf(inputFrame[..]);
      var count := BitByteCount(n);
      ghost var k := LeadingResolved(t, start, n, kind);
      ghost var packed := PackBits(WithHeader(out, id, f[1], count), BitValues(t, start, k, kind));
      ReadBitsEffectParts(f, out, t, id, crc, kind, count, k == n, packed);
      var header := outputFrame[..][0 := slaveId][1 := inputFrame[1]][2 := count];
      assert header == WithHeader(out, id, f[1], count);
      var reply, complete := PackBitRange(kind, start, n, header);
      assert reply == packed && (complete <==> k == n);
      StoreOutput(reply);
      if !complete {
        ThrowException(IllegalDataAddress);
        assert outputFrame[..] == ExceptionBuffer(packed, id, f[1], IllegalDataAddress, crc);
      } else {
        SendFrame(outputFrame, (3 + count) % 256);
        assert outputFrame[..] == PutCrc(packed, (3 + count) % 256, crc);
      }
    }

    /** One pass of the loop of codes 3 and 4: look up address start + i
        and, when it is a register of `kind`, copy its cell's value, high
        byte first, into bytes 3 + 2i and 4 + 2i of `reply`. `last` is the
        number of leading addresses of the range that are registers of
        `kind`, and `values` their cells' values. */
    method PackWordAt(kind: RegisterType, start: uint16, i: nat, header: seq<byte>, reply: seq<byte>, ghost last: nat, ghost values: seq<uint16>)
      returns (found: bool, next: seq<byte>)
      requires Valid() && IsWordKind(kind) && i <= last < 0x1_0000 && |header| == FrameCapacity && WordsFit(last, FrameCapacity)
      requires i < last || !Resolves(Table(), Address(start, i), kind)
      requires forall j {:trigger Resolves(Table(), Address(start, j), kind)} :: 0 <= j < last ==> Resolves(Table(), Address(start, j), kind)
      requires values == WordValues(Table(), start, last, kind)
      requires reply == PackWords(header, values[..i])
      ensures found <==> i < last
      ensures found ==> next == PackWords(header, values[..i + 1])
    {
      var value;
      found, value := ReadWordAt(kind, Address(start, i));
      if !found {
        return found, reply;
      }
      PackWordsStep(header, Table(), start, last, kind, i, reply, value);
      next := reply[3 + 2 * i := Hi(value)][4 + 2 * i := Lo(value)];
    }

    /** The loop of codes 3 and 4: pack word after word while the addresses
        start, start + 1, ... are registers of `kind`; `complete` tells
        whether all n addresses were found. */
    method PackWordRange(kind: RegisterType, start: uint16, n: nat, header: seq<byte>) returns (reply: seq<byte>, complete: bool)
      requires Valid() && IsWordKind(kind) && n < 0x1_0000 && |header| == FrameCapacity
      requires WordsFit(LeadingResolved(Table(), start, n, kind), FrameCapacity)
      ensures complete <==> old(LeadingResolved(Table(), start, n, kind)) == n
      ensures reply == old(PackWords(header, WordValues(Table(), start, LeadingResolved(Table(), start, n, kind), kind)))
    {
      ghost var t := Table();
      ghost var last := LeadingResolved(t, start, n, kind);
      ghost var vals := WordValues(t, start, last, kind);
      reply := header;
      var i := 0;
      while i < n
        invariant i <= last
        invariant reply == PackWords(header, vals[..i])
      {
        ResolvedBefore(t, start, n, kind, i);
        var found, next := PackWordAt(kind, start, i, header, reply, last, vals);
        if !found {
          break;
        }
        reply, i := next, i + 1;
      }
      assert i == last && vals[..i] == vals;
      return reply, i == n;
    }

    /** Codes 3 and 4 of parseFrame: write the header, store the cells'
        values word by word, and answer IllegalDataAddress at the first
        address that is not a register of `kind`, or send the packed reply. */
    method ReadWords(kind: RegisterType)
      requires Valid() && IsWordKind(kind) && ReadWordsFit(inputFrame[..], Table(), kind)
      modifies outputFrame, this`sent
      ensures Valid()
      ensures var e := old(ReadWordsEffect(inputFrame[..], outputFrame[..], Table(), slaveId, crc, kind));
        outputFrame[..] == e.output && sent == old(sent) + e.replies
    {
      ghost var f, out, t, id := inputFrame[..], outputFrame[..], Table(), slaveId;
      var start, n := StartOf(inputFrame[..]), QuantityOf(inputFrame[..]);
      var count := WordByteCount(n);
      ghost var k := LeadingResolved(t, start, n, kind);
      ghost var packed := PackWords(WithHeader(out, id, f[1], count), WordValues(t, start, k, kind));
      ReadWordsEffectParts(f, out, t, id, crc, kind, count, k == n, packed);
      var header := outputFrame[..][0 := slaveId][1 := inputFrame[1]][2 := count];
      assert header == WithHeader(out, id, f[1], count);
      var reply, complete := PackWordRange(kind, start, n, header);
      assert reply == packed && (complete <==> k == n);
      StoreOutput(reply);
      if !complete {
        ThrowException(IllegalDataAddress);
        assert outputFrame[..] == ExceptionBuffer(packed, id, f[1], IllegalDataAddress, crc);
      } else {
        SendFrame(outputFrame, (count + 3) % 256);
        assert outputFrame[..] == PutCrc(packed, (count + 3) % 256, crc);
      }
    }

    /** Code 5 of parseFrame: set the coil from bytes 4-5 read in host order
        and echo the 8 request bytes, or answer IllegalDataAddress. */
    method WriteCoil()
      requires Valid()
      modifies outputFrame, this`sent, BitCells(Table())
      ensures Valid()
      ensures var e := old(WriteSingleCoilEffect(inputFrame[..], outputFrame[..], Table(), slaveId, crc));
        && outputFrame[..] == e.output && sent == old(sent) + e.replies
        && forall c :: c in old(BitCells(Table())) ==> c.value == Latest(e.bitWrites, c, old(c.value))
    {
      var cell := FindBitCell(Coil, StartOf(inputFrame[..]));
      if cell == null {
        ThrowException(IllegalDataAddress);
        return;
      }
      cell.value := Word(inputFrame[5], inputFrame[4]) == 1;
      sent := sent + [inputFrame[..8]];
    }

    /** Code 6 of parseFrame: store the big-endian word of bytes 4-5 in the
        holding register and echo the 8 request bytes, or answer
        IllegalDataAddress. */
    method WriteRegister()
      requires Valid()
      modifies outputFrame, this`sent, WordCells(Table())
      ensures Valid()
      ensures var e := old(WriteSingleRegisterEffect(inputFrame[..], outputFrame[..], Table(), slaveId, crc));
        && outputFrame[..] == e.output && sent == old(sent) + e.replies
        && forall c :: c in old(WordCells(Table())) ==> c.value == Latest(e.wordWrites, c, old(c.value))
    {
      var cell := FindWordCell(HoldingRegister, StartOf(inputFrame[..]));
      if cell == null {
        ThrowException(IllegalDataAddress);
        return;
      }
      cell.value := Word(inputFrame[4], inputFrame[5]);
      sent := sent + [inputFrame[..8]];
    }

    /** One pass of the code-15 loop: look up address start + i and, if it is
        a coil, set it from bit i % 8 of request byte 7 + i / 8. `init` holds
        the values the cells had before the loop. */
    method SetCoilAt(start: uint16, i: nat, f: seq<byte>, ghost t: seq<Register>, ghost last: nat, ghost init: map<BitCell, bool>) returns (found: bool)
      requires Valid() && t == Table() && i <= last < 0x1_0000 && (last == 0 || 7 + (last - 1) / 8 < |f|)
      requires i < last || !Resolves(t, Address(start, i), Coil)
      requires forall j {:trigger Resolves(t, Address(start, j), Coil)} :: 0 <= j < last ==> Resolves(t, Address(start, j), Coil)
      requires CoilsAfter(t, start, i, f, init)
      modifies BitCells(t)
      ensures found <==> i < last
      ensures CoilsAfter(t, start, if found then i + 1 else i, f, init)
    {
      var cell := FindBitCell(Coil, Address(start, i));
      if cell == null {
        return false;
      }
      cell.value := TestBit(f[7 + i / 8], i % 8);
      return true;
    }

    /** The loop of code 15: for i = 0, 1, ... look up address start + i
        and, while it is a coil, set it from bit i % 8 of request byte
        7 + i / 8. Stops at the first address that is not a coil; `complete`
        tells whether all n were. */
    method SetCoilRange(start: uint16, n: nat, f: seq<byte>) returns (complete: bool)
      requires Valid() && n < 0x1_0000
      requires var k := LeadingResolved(Table(), start, n, Coil); k == 0 || 7 + (k - 1) / 8 < |f|
      modifies BitCells(Table())
      ensures complete <==> old(LeadingResolved(Table(), start, n, Coil)) == n
      ensures var k := old(LeadingResolved(Table(), start, n, Coil));
        forall c :: c in old(BitCells(Table())) ==> c.value == old(CoilValueAfter(Table(), start, k, f, c, c.value))
    {
      ghost var t := Table();
      ghost var last := LeadingResolved(t, start, n, Coil);
      ghost var init: map<BitCell, bool> := map c: BitCell | c in BitCells(t) :: c.value;
      assert CoilsAfter(t, start, 0, f, init);
      var i := 0;
      while i < n
        invariant i <= last && Table() == t
        invariant CoilsAfter(t, start, i, f, init)
      {
        ResolvedBefore(t, start, n, Coil, i);
        var found := SetCoilAt(start, i, f, t, last, init);
        if !found {
          break;
        }
        i := i + 1;
      }
      assert i == last && CoilsAfter(t, start, last, f, init);
      forall c | c in BitCells(t) ensures c.value == CoilValueAfter(t, start, last, f, c, old(c.value)) {
        assert init[c] == old(c.value);
      }
      return i == n;
    }

    /** Code 15 of parseFrame: set the coils, answering IllegalDataAddress at
        the first address that is not a coil; when all n were coils, put the
        CRC of request bytes 0-5 over bytes 6-7 of the request, write those 8
        bytes, and put bytes 6-7 back. */
    method WriteCoils()
      requires Valid() && WriteCoilsFit(inputFrame[..], Table())
      modifies inputFrame, outputFrame, this`sent, BitCells(Table())
      ensures Valid() && inputFrame[..] == old(inputFrame[..])
      ensures var e := old(WriteCoilsEffect(inputFrame[..], outputFrame[..], Table(), slaveId, crc));
        && outputFrame[..] == e.output && sent == old(sent) + e.replies
        && forall c :: c in old(BitCells(Table())) ==> c.value == Latest(e.bitWrites, c, old(c.value))
    {
      ghost var f := inputFrame[..];
      var start, n := StartOf(inputFrame[..]), QuantityOf(inputFrame[..]);
      ghost var t := Table();
      ghost var k := LeadingResolved(t, start, n, Coil);
      var complete := SetCoilRange(start, n, inputFrame[..]);
      forall c | c in BitCells(t) ensures CoilValueAfter(t, start, k, f, c, old(c.value)) == Latest(CoilWrites(t, start, k, f), c, old(c.value)) {
        CoilValueIsLatest(t, start, k, f, c, old(c.value));
      }
      if !complete {
        ThrowException(IllegalDataAddress);
        return;
      }
      var lo, hi := inputFrame[6], inputFrame[7];
      var c := crc(inputFrame[..6]);
      inputFrame[6] := Lo(c);
      inputFrame[7] := Hi(c);
      assert inputFrame[..8] == Sealed(f[..6], crc);
      sent := sent + [inputFrame[..8]];
      inputFrame[6] := lo;
      inputFrame[7] := hi;
      assert inputFrame[..] == f;
    }

    /** One pass of the code-16 loop: look up address start + i and, if it is
        a holding register, store the big-endian word of request bytes 7 + 2i
        and 8 + 2i in it. `init` holds the values the cells had before the
        loop. */
    method SetRegisterAt(start: uint16, i: nat, f: seq<byte>, ghost t: seq<Register>, ghost last: nat, ghost init: map<WordCell, uint16>) returns (found: bool)
      requires Valid() && t == Table() && i <= last < 0x1_0000 && (last == 0 || 8 + 2 * (last - 1) < |f|)
      requires i < last || !Resolves(t, Address(start, i), HoldingRegister)
      requires forall j {:trigger Resolves(t, Address(start, j), HoldingRegister)} :: 0 <= j < last ==> Resolves(t, Address(start, j), HoldingRegister)
      requires RegistersAfter(t, start, i, f, init)
      modifies WordCells(t)
      ensures found <==> i < last
      ensures RegistersAfter(t, start, if found then i + 1 else i, f, init)
    {
      var cell := FindWordCell(HoldingRegister, Address(start, i));
      if cell == null {
        return false;
      }
      cell.value := Word(f[7 + 2 * i], f[8 + 2 * i]);
      return true;
    }

    /** The loop of code 16: for i = 0, 1, ... look up address start + i
        and, while it is a holding register, store the big-endian word of
        request bytes 7 + 2i and 8 + 2i in it. Stops at the first address that
        is not a holding register; `complete` tells whether all n were. */
    method SetRegisterRange(start: uint16, n: nat, f: seq<byte>) returns (complete: bool)
      requires Valid() && n < 0x1_0000
      requires var k := LeadingResolved(Table(), start, n, HoldingRegister); k == 0 || 8 + 2 * (k - 1) < |f|
      modifies WordCells(Table())
      ensures complete <==> old(LeadingResolved(Table(), start, n, HoldingRegister)) == n
      ensures var k := old(LeadingResolved(Table(), start, n, HoldingRegister));
        forall c :: c in old(WordCells(Table())) ==> c.value == old(RegisterValueAfter(Table(), start, k, f, c, c.value))
    {
      ghost var t := Table();
      ghost var last := LeadingResolved(t, start, n, HoldingRegister);
      ghost var init: map<WordCell, uint16> := map c: WordCell | c in WordCells(t) :: c.value;
      assert RegistersAfter(t, start, 0, f, init);
      var i := 0;
      while i < n
        invariant i <= last && Table() == t
        invariant RegistersAfter(t, start, i, f, init)
      {
        ResolvedBefore(t, start, n, HoldingRegister, i);
        var found := SetRegisterAt(start, i, f, t, last, init);
        if !found {
          break;
        }
        i := i + 1;
      }
      assert i == last && RegistersAfter(t, start, last, f, init);
      forall c | c in WordCells(t) ensures c.value == RegisterValueAfter(t, start, last, f, c, old(c.value)) {
        assert init[c] == old(c.value);
      }
      return i == n;
    }

    /** Code 16 of parseFrame: store the registers, answering
        IllegalDataAddress at the first address that is not a holding
        register; when all n were, copy request bytes 0-5 into the output
        buffer and send them. */
    method WriteRegisters()
      requires Valid() && WriteRegistersFit(inputFrame[..], Table())
      modifies outputFrame, this`sent, WordCells(Table())
      ensures Valid()
      ensures var e := old(WriteRegistersEffect(inputFrame[..], outputFrame[..], Table(), slaveId, crc));
        && outputFrame[..] == e.output && sent == old(sent) + e.replies
        && forall c :: c in old(WordCells(Table())) ==> c.value == Latest(e.wordWrites, c, old(c.value))
    {
      ghost var f := inputFrame[..];
      var start, n := StartOf(inputFrame[..]), QuantityOf(inputFrame[..]);
      ghost var t := Table();
      ghost var k := LeadingResolved(t, start, n, HoldingRegister);
      var complete := SetRegisterRange(start, n, inputFrame[..]);
      forall c | c in WordCells(t) ensures RegisterValueAfter(t, start, k, f, c, old(c.value)) == Latest(RegisterWrites(t, start, k, f), c, old(c.value)) {
        RegisterValueIsLatest(t, start, k, f, c, old(c.value));
      }
      if !complete {
        ThrowException(IllegalDataAddress);
        return;
      }
      CopyRequestHeader();
      SendFrame(outputFrame, 6);
    }

    /** The six byte copies before the reply of code 16 is sent: request bytes
        0-5 (address, function code, start, quantity) into the output buffer. */
    method CopyRequestHeader()
      requires Valid()
      modifies outputFrame
      ensures Valid() && outputFrame[..] == inputFrame[..6] + old(outputFrame[..])[6..]
    {
      outputFrame[0] := inputFrame[0];
      outputFrame[1] := inputFrame[1];
      outputFrame[2] := inputFrame[2];
      outputFrame[3] := inputFrame[3];
      outputFrame[4] := inputFrame[4];
      outputFrame[5] := inputFrame[5];
    }

    /** parseFrame: dispatch on the function byte to its handler; any other
        code does nothing. */
    method ParseFrame()
      requires Valid() && Fits(inputFrame[..], Table())
      modifies inputFrame, outputFrame, this`sent, BitCells(Table()), WordCells(Table())
      ensures Valid() && inputFrame[..] == old(inputFrame[..])
      ensures var e := old(Parse(inputFrame[..], outputFrame[..], Table(), slaveId, crc));
        && outputFrame[..] == e.output && sent == old(sent) + e.replies
        && (forall c :: c in old(BitCells(Table())) ==> c.value == Latest(e.bitWrites, c, old(c.value)))
        && (forall c :: c in old(WordCells(Table())) ==> c.value == Latest(e.wordWrites, c, old(c.value)))
    {
      if ReadCoils <= inputFrame[1] <= ReadInputRegisters {
        ParseRead();
      } else {
        ParseWrite();
      }
    }

    /** The read branches of parseFrame: codes 1 to 4. */
    method ParseRead()
      requires Valid() && Fits(inputFrame[..], Table()) && ReadCoils <= inputFrame[1] <= ReadInputRegisters
      modifies outputFrame, this`sent
      ensures Valid()
      ensures var e := old(Parse(inputFrame[..], outputFrame[..], Table(), slaveId, crc));
        && outputFrame[..] == e.output && sent == old(sent) + e.replies
        && e.bitWrites == [] && e.wordWrites == []
    {
      var fc := inputFrame[1];
      ghost var f, out, t := inputFrame[..], outputFrame[..], Table();
      if fc == ReadCoils || fc == ReadDiscreteInputs {
        ReadBitsReplyShape(f, out, t, slaveId, crc, BitKindOf(fc));
        ReadBits(BitKindOf(fc));
      } else {
        ReadWordsReplyShape(f, out, t, slaveId, crc, WordKindOf(fc));
        ReadWords(WordKindOf(fc));
      }
    }

    /** The write branches of parseFrame: codes 5, 6, 15 and 16; any other
        code does nothing. */
    method ParseWrite()
      requires Valid() && Fits(inputFrame[..], Table()) && !(ReadCoils <= inputFrame[1] <= ReadInputRegisters)
      modifies inputFrame, outputFrame, this`sent, BitCells(Table()), WordCells(Table())
      ensures Valid() && inputFrame[..] == old(inputFrame[..])
      ensures var e := old(Parse(inputFrame[..], outputFrame[..], Table(), slaveId, crc));
        && outputFrame[..] == e.output && sent == old(sent) + e.replies
        && (forall c :: c in old(BitCells(Table())) ==> c.value == Latest(e.bitWrites, c, old(c.value)))
        && (forall c :: c in old(WordCells(Table())) ==> c.value == Latest(e.wordWrites, c, old(c.value)))
    {
      var fc := inputFrame[1];
      if fc == WriteSingleCoil {
        WriteCoil();
      } else if fc == WriteSingleRegister {
        WriteRegister();
      } else if fc == WriteMultipleCoils {
        WriteCoils();
      } else if fc == WriteMultipleRegisters {
        WriteRegisters();
      }
    }

    /** isFrameCorrupted on the input buffer, with the trailing CRC compared
        as a 16-bit word. */
    method IsFrameCorrupted() returns (corrupted: bool)
      requires Valid() && 2 <= inputFrameLength
      ensures corrupted <==> inputFrame[..inputFrameLength] != Sealed(inputFrame[..inputFrameLength - 2], crc)
    {
      CorruptedIffNotSealed(inputFrame[..], inputFrameLength, crc);
      var c := crc(inputFrame[..inputFrameLength - 2]);
      return c != Word(inputFrame[inputFrameLength - 1], inputFrame[inputFrameLength - 2]);
    }

    /** The part of update that follows a completed receiveFrame: drop a
        frame addressed to another slave or failing the CRC check, parse any
        other, and empty the buffer. */
    method HandleFrame()
      requires Valid() && 2 <= inputFrameLength
      requires Admissible(inputFrame[..], inputFrameLength, Table(), slaveId, crc)
      modifies inputFrame, outputFrame, this`inputFrameLength, this`sent, BitCells(Table()), WordCells(Table())
      ensures Valid() && inputFrame[..] == old(inputFrame[..]) && inputFrameLength == 0
      ensures var e := old(Handled(inputFrame[..], inputFrameLength, outputFrame[..], Table(), slaveId, crc));
        && outputFrame[..] == e.output && sent == old(sent) + e.replies
        && (forall c :: c in old(BitCells(Table())) ==> c.value == Latest(e.bitWrites, c, old(c.value)))
        && (forall c :: c in old(WordCells(Table())) ==> c.value == Latest(e.wordWrites, c, old(c.value)))
    {
      ghost var e := Handled(inputFrame[..], inputFrameLength, outputFrame[..], Table(), slaveId, crc);
      if inputFrame[0] != slaveId {
        ClearInputFrame();
        return;
      }
      var corrupted := IsFrameCorrupted();
      CorruptedIffNotSealed(inputFrame[..], inputFrameLength, crc);
      if corrupted {
        ClearInputFrame();
        return;
      }
      assert e == Parse(inputFrame[..], outputFrame[..], Table(), slaveId, crc);
      ParseFrame();
      ClearInputFrame();
    }

    /** update: receive, and when a frame is complete handle it. */
    method Update()
      requires Valid() && UpdateFits(inputFrame[..], inputFrameLength, pending, outputFrame[..], Table(), slaveId, crc)
      modifies inputFrame, outputFrame, this`inputFrameLength, this`pending, this`sent, BitCells(Table()), WordCells(Table())
      ensures Valid()
      ensures var u := old(UpdateSpec(inputFrame[..], inputFrameLength, pending, outputFrame[..], Table(), slaveId, crc));
        && inputFrame[..] == u.buffer && inputFrameLength == u.length && pending == u.pending
        && outputFrame[..] == u.output && sent == old(sent) + u.replies
        && (forall c :: c in old(BitCells(Table())) ==> c.value == Latest(u.bitWrites, c, old(c.value)))
        && (forall c :: c in old(WordCells(Table())) ==> c.value == Latest(u.wordWrites, c, old(c.value)))
    {
      ghost var p := Receive(inputFrame[..], inputFrameLength, pending, outputFrame[..], slaveId, crc);
      CompleteIsLong(inputFrame[..], inputFrameLength, pending, outputFrame[..], slaveId, crc);
      var complete := ReceiveFrame();
      if complete {
        assert sent == old(sent) && Admissible(p.buffer, p.length, Table(), slaveId, crc);
        HandleFrame();
      }
    }
  }
}

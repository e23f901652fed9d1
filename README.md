# ModbusRTU slave engine in Dafny

This project models the Modbus RTU slave (responder) of `ModbusRTU::ModbusRTUSlave<registerCount>`
(src/ModbusRTU.h) and proves what it does with every request it accepts.

The model covers:

- the register table: `m_RegisterArray` and `m_AssignedRegisters`, with `findRegister`, `addRegister` and the four `add*` wrappers, and `begin`'s clearing of the slots;
- the frame assembler `receiveFrame`, which reads serial bytes into the 255-byte `m_InputFrame`, predicts the frame length from the function code and answers unknown codes with IllegalFunction;
- the CRC test `isFrameCorrupted` and the poll step `update`;
- the reply encoders `sendFrame` and `throwException`. `sendFrame` appends the CRC low byte first, as section 2.5.1.2 of the MODBUS over Serial Line Specification V1.02 requires;
- `parseFrame` with its eight handlers: Read Coils (1), Read Discrete Inputs (2), Read Holding Registers (3), Read Input Registers (4), Write Single Coil (5), Write Single Register (6), Write Multiple Coils (15) and Write Multiple Registers (16). These are sections 6.1–6.6, 6.11 and 6.12 of the MODBUS Application Protocol Specification V1.1b3.

The project has five modules:

- `Wire` (wire.dfy): bytes, 16-bit words, the bits of a byte, the function and exception codes, and how a frame is sealed with its CRC.
- `Registers` (registers.dfy): the table entry and the caller-owned cells an entry points to, `Find` (what `findRegister` returns), and the write logs that say what a cell holds after a request.
- `Requests` (requests.dfy): what `parseFrame` does with one frame, as a value. The `Effect` datatype holds the new output buffer, the frames written to the line, and the cell writes in order.
- `Assembler` (assembler.dfy): what `receiveFrame`, `isFrameCorrupted` and `update` do, as values.
- `Slave` (slave.dfy): the class `ModbusSlave`.
  - Its fields mirror the C++ members. The serial port is `pending`, the bytes not yet read, and the ghost `sent`, every frame written so far.
  - The methods update the arrays and cells in place. The register, receive and write loops store one element per step, as the C++ does; the two read handlers pack their reply as a sequence and store it once (see "Left out"). Each method is proved to leave exactly the state that the value-level function of `Requests` or `Assembler` describes.
  - The lemmas about those functions carry the properties.
  - `Valid()` includes that no two findable entries share a register number; the constructor, `addRegister` and `begin` keep that true.

The model keeps the source's quirks:

- Write Single Coil stores `true` only for data bytes `01 00`. It compares a host-order word with `true`, so the standard ON value `FF 00` stores `false`.
- A bit read leaves the unused bits of its last data byte as they were in `m_OutputFrame`.
- Byte counts are cut to 8 bits. The quantity is never checked against the buffers.
- The multiple writes read their data from byte 7 on and ignore the byte count in byte 6.
- An unknown function code is answered before the slave address or the CRC is checked.
- Once a frame with a code in 1..6 has more than 8 bytes buffered, it is never completed.

## Model

| member | source | states |
|---|---|---|
| Wire.WordOfBytes | src/ModbusRTU.h:264 | a register value stored high byte first is recovered from its two bytes |
| Wire.BytesOfWord | src/ModbusRTU.h:172-173 | two request bytes read big-endian as a word split back into the same two bytes |
| Wire.WordInjective | src/ModbusRTU.h:390 | two byte pairs give the same big-endian word exactly when they are equal |
| Wire.AssignBit | src/ModbusRTU.h:191-194 | BIT_SET / BIT_RESET: bit p of the result is the value written, and every other bit is unchanged |
| Wire.TestBit | src/ModbusRTU.h:14 | BIT_CHECK: bit p of a byte, defined by halving; AssignBit and BitsDetermineByte state how it changes and that it fixes the byte |
| Wire.BitsDetermineByte | src/ModbusRTU.h:191-194 | a byte is determined by its eight bits, so the bit-level layout lemmas fix the bytes of a reply |
| Wire.Sealed | src/ModbusRTU.h:151-155 | a sent frame is the payload unchanged, followed by the CRC over exactly that payload, low byte first |
| Wire.PutCrcSeals | src/ModbusRTU.h:153-154 | after sendFrame stores the CRC, the first n + 2 buffer bytes are the sealed payload and the rest of the buffer is untouched |
| Wire.PutCrc | src/ModbusRTU.h:153-154 | the buffer after sendFrame's two stores; PutCrcSeals states that its first n + 2 bytes are the sealed payload and that the rest is kept |
| Wire.WithHeader | src/ModbusRTU.h:177-179 | the reply header is [slave id, function code, third byte], and the bytes after it are kept |
| Wire.ExceptionByteWraps | src/ModbusRTU.h:93 | the function byte of an exception is the code plus 128 modulo 256: bit 7 flips, the other seven bits stay; this is addition, not OR |
| Wire.ExceptionByte | src/ModbusRTU.h:93 | the function byte `m_InputFrame[1] + 128` cut to 8 bits; ExceptionByteWraps states that it flips bit 7 and keeps bits 0-6 |
| Wire.ExceptionBuffer | src/ModbusRTU.h:90-95 | the output buffer throwException leaves; ExceptionBufferSends states that its first 5 bytes are the sealed exception and that bytes 5 and up are kept |
| Wire.ExceptionFrame | src/ModbusRTU.h:90-96 | the 5 bytes throwException writes: [id, code + 128, exception] sealed with its CRC (Sealed states the layout) |
| Wire.ExceptionBufferSends | src/ModbusRTU.h:90-96 | throwException sends exactly the 5-byte frame [id, code + 128, exception] with its CRC, and leaves buffer bytes 5 and up alone |
| Registers.Find | src/ModbusRTU.h:101-110 | a returned index is within the assigned slots, and that entry has the number, non-null data and a type other than None |
| Registers.Findable | src/ModbusRTU.h:105 | the test findRegister applies to a slot: right number, non-null data, type not None; Cleared and FindIsFirst are stated in terms of it |
| Registers.Resolves | src/ModbusRTU.h:185-188 | the handlers' test `pRegister && m_RegisterType == kind`; ResolvedBefore and LeadingResolved state where it holds in a range |
| Registers.Address | src/ModbusRTU.h:185 | the loop address `start + i` in uint16_t arithmetic, wrapping from 0xFFFF to 0 |
| Registers.FindIsFirst | src/ModbusRTU.h:103-109 | findRegister returns the lowest findable index, and null exactly when no assigned entry is findable under that number |
| Registers.FindAfterAppend | src/ModbusRTU.h:416-423 | after one entry is appended, an earlier hit stays the hit; otherwise the new entry is found exactly when it is findable |
| Registers.UniqueAfterAppend | src/ModbusRTU.h:416-423 | appending an entry whose number is not findable keeps the table free of findable duplicates |
| Registers.FindIsOnly | src/ModbusRTU.h:105 | in a table without findable duplicates, any findable entry is the one findRegister returns |
| Registers.LeadingResolved | src/ModbusRTU.h:182-201 | a handler's loop completes k iterations: every address before k is a register of the wanted type, and address k is not (when k < n) |
| Registers.LeadingResolvedAt | src/ModbusRTU.h:182-201 | the position where the addresses stop resolving is the only value LeadingResolved can take |
| Registers.ResolvedBefore | src/ModbusRTU.h:188 | inside the range, address i passes the type test exactly when i comes before the first miss |
| Registers.BitCellAt | src/ModbusRTU.h:188-191 | the cell a coil or discrete-input address resolves to is one of the table's bool cells |
| Registers.WordCellAt | src/ModbusRTU.h:262-264 | the cell an input or holding register resolves to is one of the table's uint16_t cells |
| Registers.LatestAppend | src/ModbusRTU.h:361 | after one more write, the written cell holds the written value and every other cell keeps its value |
| Registers.Latest | src/ModbusRTU.h:361 | the value a cell holds after a request's writes are applied in order (the last write to it, else its old value); LatestAppend and LatestOfDistinct state this, including cells shared by several entries |
| Registers.LatestOfDistinct | src/ModbusRTU.h:353-369 | when a request writes pairwise distinct cells, each written cell holds its written value and every other cell is unchanged |
| Registers.Cleared | src/ModbusRTU.h:468-472 | a slot cleared by begin is well typed and is never findable |
| Requests.QuantityOf | src/ModbusRTU.h:173 | the quantity is a 16-bit value read big-endian from bytes 4-5 |
| Requests.StartOf | src/ModbusRTU.h:172 | the first address, read big-endian from bytes 2-3 (BytesOfWord states the round trip) |
| Requests.BitByteCount | src/ModbusRTU.h:174 | the byte count of a bit read is below 256, and for n ≤ 2040 it is exactly ceil(n / 8) |
| Requests.WordByteCount | src/ModbusRTU.h:248 | the byte count of a register read is below 256, and 2n whenever n < 128 |
| Requests.BitValuesCells | src/ModbusRTU.h:185-191 | value j of a bit read is the value of the cell at address start + j |
| Requests.WordValuesCells | src/ModbusRTU.h:259-264 | value j of a register read is the value of the cell at address start + j |
| Requests.PackBitsNext | src/ModbusRTU.h:191-194 | one more loop step stores value i at bit i % 8 of byte 3 + i / 8 of the buffer packed so far |
| Requests.PackBitsStep | src/ModbusRTU.h:185-195 | storing the value of the cell at start + i extends the packed reply by one value |
| Requests.PackBitsLayout | src/ModbusRTU.h:191-194 | bit p of data byte b holds value 8b + p when there is one, and otherwise keeps what the buffer held |
| Requests.PackBitsElsewhere | src/ModbusRTU.h:177-194 | the bit loop touches no byte outside the data bytes |
| Requests.PackBits | src/ModbusRTU.h:182-195 | the buffer after the bit loop; its ensures keeps the buffer length, and PackBitsLayout, PackBitsElsewhere and PackBitsNext state where every value lands and what stays |
| Requests.PackWordsNext | src/ModbusRTU.h:264 | one more loop step stores value i big-endian at bytes 3 + 2i and 4 + 2i |
| Requests.PackWordsStep | src/ModbusRTU.h:259-265 | storing the value of the cell at start + i extends the packed reply by one word |
| Requests.PackWordsLayout | src/ModbusRTU.h:264 | word i sits high byte first in bytes 3 + 2i and 4 + 2i, and every other byte keeps its value |
| Requests.PackWords | src/ModbusRTU.h:256-265 | the buffer after the register loop; its ensures keeps the buffer length, and PackWordsLayout and PackWordsNext state where every word lands |
| Requests.CoilWrites | src/ModbusRTU.h:353-361 | Write Multiple Coils makes one write per resolved address, in order: coil start + j gets bit j % 8 of byte 7 + j / 8 |
| Requests.CoilValueIsLatest | src/ModbusRTU.h:353-369 | applying the coil writes one by one leaves each coil with its last write, or its old value if it was not written |
| Requests.RegisterWrites | src/ModbusRTU.h:382-390 | Write Multiple Registers makes one write per resolved address, in order: register start + j gets the big-endian word at bytes 7 + 2j, 8 + 2j |
| Requests.RegisterValueIsLatest | src/ModbusRTU.h:382-398 | applying the register writes one by one leaves each register with its last write, or its old value |
| Requests.SingleCoilValue | src/ModbusRTU.h:318 | Write Single Coil stores true exactly when bytes 4, 5 are 01, 00 |
| Requests.AddressException | src/ModbusRTU.h:196-201 | the effect of `throwException(IllegalDataAddress)` after the writes already made, as every handler raises it at its first miss; ExceptionBufferSends states its frame |
| Requests.BitsFrame | src/ModbusRTU.h:177-205 | the frame a complete bit read sends; BitsFrameLayout states its header, data bits and CRC |
| Requests.WordsFrame | src/ModbusRTU.h:251-275 | the frame a complete register read sends; WordsFrameLayout states its header, words and CRC |
| Requests.ReadBitsEffect | src/ModbusRTU.h:170-243 | codes 1 and 2 as a value; ReadBitsReplyShape, SealedBits, ReadBitsReply and ReadBitsSendsFrame state its outcomes |
| Requests.ReadWordsEffect | src/ModbusRTU.h:244-309 | codes 3 and 4 as a value; ReadWordsReplyShape, SealedWords and ReadWordsReply state its outcomes |
| Requests.WriteSingleCoilEffect | src/ModbusRTU.h:310-328 | code 5 as a value; WriteSingleCoilReply states its outcomes |
| Requests.WriteSingleRegisterEffect | src/ModbusRTU.h:329-347 | code 6 as a value; WriteSingleRegisterReply states its outcomes |
| Requests.WriteCoilsEffect | src/ModbusRTU.h:348-376 | code 15 as a value; WriteCoilsReply, CoilWrites and CoilValueIsLatest state its outcomes |
| Requests.WriteRegistersEffect | src/ModbusRTU.h:377-407 | code 16 as a value; WriteRegistersReply, RegisterWrites and RegisterValueIsLatest state its outcomes |
| Requests.BitKindOf | src/ModbusRTU.h:170-243 | the register type a bit read asks for: Coil for code 1, DiscreteInput for code 2 |
| Requests.WordKindOf | src/ModbusRTU.h:244-309 | the register type a register read asks for: HoldingRegister for code 3, InputRegister for code 4 |
| Requests.Parse | src/ModbusRTU.h:168-408 | parseFrame's dispatch on byte 1 to the eight effects; ParseIgnoresOtherCodes and the per-code Reply lemmas state what each code does |
| Requests.SealedBits | src/ModbusRTU.h:191-205 | the sealed bit reply keeps its header, carries value i as data bit i, and leaves the unused bits of the last data byte as they were |
| Requests.SealedWords | src/ModbusRTU.h:264-275 | the sealed register reply keeps its header and carries value i as data word i |
| Requests.ReadBitsReplyShape | src/ModbusRTU.h:196-205 | codes 1 and 2 send exactly one frame and write no cell; if some address misses, that frame is the IllegalDataAddress exception |
| Requests.ReadWordsReplyShape | src/ModbusRTU.h:266-275 | codes 3 and 4 send exactly one frame and write no cell; if some address misses, that frame is the IllegalDataAddress exception |
| Requests.BitCountInRange | src/ModbusRTU.h:174 | when the range fits the buffer, the byte count is ceil(n / 8) and the 8-bit length 3 + count does not wrap |
| Requests.WordCountInRange | src/ModbusRTU.h:248 | when the range fits the buffer, the byte count is 2n and the 8-bit length does not wrap |
| Requests.BitsFrameLayout | src/ModbusRTU.h:177-205 | the bit reply is [id, fc, count], ceil(n / 8) data bytes with value i at bit i, and its CRC |
| Requests.ReadBitsReply | src/ModbusRTU.h:170-206 | when every address resolves, the one reply is that frame, filled with the cells' values in address order |
| Requests.ReadBitsSendsFrame | src/ModbusRTU.h:205 | when every address resolves, the frame sent is the bit reply with ceil(n / 8) data bytes |
| Requests.WordsFrameLayout | src/ModbusRTU.h:251-275 | the register reply is [id, fc, 2n], the words high byte first, and its CRC |
| Requests.ReadWordsReply | src/ModbusRTU.h:244-276 | when every address resolves, the one reply is that frame, filled with the cells' values in address order |
| Requests.WriteSingleCoilReply | src/ModbusRTU.h:310-328 | code 5 sends one frame. If the address is a coil, it stores (bytes 4, 5 == 01, 00) there and echoes the 8 request bytes. Otherwise it writes nothing and sends IllegalDataAddress |
| Requests.WriteSingleRegisterReply | src/ModbusRTU.h:329-347 | code 6 sends one frame. If the address is a holding register, it stores the big-endian word there and echoes the 8 request bytes. Otherwise it writes nothing and sends IllegalDataAddress |
| Requests.WriteCoilsReply | src/ModbusRTU.h:348-376 | code 15 writes the coils in order up to the first miss and keeps those writes. It sends one frame: request bytes 0-5 with a fresh CRC, or IllegalDataAddress |
| Requests.WriteRegistersReply | src/ModbusRTU.h:377-407 | code 16 writes the registers in order up to the first miss and keeps those writes. It sends one frame, request bytes 0-5 with a fresh CRC (also left in the output buffer), or IllegalDataAddress |
| Requests.ParseIgnoresOtherCodes | src/ModbusRTU.h:168-408 | any function code other than the eight handled ones changes nothing and sends nothing |
| Assembler.Overwrite | src/ModbusRTU.h:119 | a read stores the bytes taken at the given offset and leaves the rest of the buffer unchanged |
| Assembler.Buffered | src/ModbusRTU.h:119 | after a read the buffer holds min(length + waiting bytes, 255) bytes |
| Assembler.Classify | src/ModbusRTU.h:122-145 | receiveFrame's length test by function code and its IllegalFunction path; ClassifyShape and ReceiveRejectsUnknown state its outcomes |
| Assembler.Receive | src/ModbusRTU.h:115-146 | receiveFrame as a value; ReceiveKeepsStream, ReceiveCompletes, ReceiveRejectsUnknown and ReceiveNeverCompletesOverlong state what it does |
| Assembler.ReceiveKeepsStream | src/ModbusRTU.h:115-131 | unless the code is unknown, no byte is lost or reordered: the buffered bytes followed by the unread input are the same stream as before. The buffered prefix is untouched, the length stays ≤ 255, and nothing is sent |
| Assembler.ReceiveCompletes | src/ModbusRTU.h:117-131 | receiveFrame reports a frame exactly when input was waiting and the buffer holds 8 bytes with code 1..6, or byte[6] + 9 bytes with code 15 or 16 |
| Assembler.ReceiveRejectsUnknown | src/ModbusRTU.h:133-142 | an unknown code sends exactly one IllegalFunction frame [id, code + 128, 1] with its CRC. It drains up to 255 bytes into the buffer front, empties the buffer and reports no frame |
| Assembler.ReceiveNeverCompletesOverlong | src/ModbusRTU.h:119-127 | once more than 8 bytes with a code in 1..6 are buffered, no later read completes or empties the buffer |
| Assembler.CompleteIsLong | src/ModbusRTU.h:122-131 | a completed frame has at least 8 bytes and sends nothing |
| Assembler.ClassifyShape | src/ModbusRTU.h:122-142 | classification keeps both buffers at 255 bytes and the length in range; it completes only frames of at least 8 bytes |
| Assembler.CorruptedIffNotSealed | src/ModbusRTU.h:81-85 | a frame passes the CRC test exactly when it is its own first length - 2 bytes sealed with their CRC |
| Assembler.Corrupted | src/ModbusRTU.h:81-85 | isFrameCorrupted read as a 16-bit comparison (the corrected reading of the Finding); CorruptedIffNotSealed and SealedPasses state that it rejects exactly the frames that are not sealed |
| Assembler.SealedPasses | src/ModbusRTU.h:81-85 | a frame sealed by sendFrame passes isFrameCorrupted, whatever follows it in the buffer |
| Assembler.SignedWord | src/ModbusRTU.h:84 | reading the trailer through a short gives a value in -32768..32767 with the same 16 bits |
| Assembler.CorruptedWideInt | src/ModbusRTU.h:84 | isFrameCorrupted as written, on a target whose int is wider than 16 bits; WideIntRejectsHighCrc states which sealed frames it rejects |
| Assembler.WideIntRejectsHighCrc | src/ModbusRTU.h:84 | with an int wider than 16 bits, a correctly sealed frame is reported corrupted exactly when its CRC is 0x8000 or more |
| Assembler.UpdateDropsForeignOrCorrupt | src/ModbusRTU.h:498-518 | a completed frame for another slave, or with a bad CRC, sends nothing, writes no cell and keeps the output buffer. After any completed frame the length is 0 |
| Assembler.UpdateIncomplete | src/ModbusRTU.h:495-519 | a poll without a complete frame writes no cell, and sends nothing except the IllegalFunction reply to an unknown code |
| Assembler.UpdateParsesAccepted | src/ModbusRTU.h:498-518 | a parsed frame was addressed to this slave and correctly sealed, and update's effect on it is parseFrame's |
| Assembler.Handled | src/ModbusRTU.h:500-517 | update's gate: a frame for another slave or with a bad CRC is dropped, any other is parsed; UpdateDropsForeignOrCorrupt and UpdateParsesAccepted state this |
| Assembler.UpdateSpec | src/ModbusRTU.h:495-519 | one update call as a value; UpdateIncomplete, UpdateDropsForeignOrCorrupt and UpdateParsesAccepted state its outcomes |
| Slave.ModbusSlave.constructor | src/ModbusRTU.h:428 | a new slave has no assigned register, slave id 0, an empty input buffer and nothing sent |
| Slave.ModbusSlave.FindRegister | src/ModbusRTU.h:101-110 | the linear search returns Find over the assigned slots |
| Slave.ModbusSlave.AddRegister | src/ModbusRTU.h:414-424 | -1 exactly when the table is full or the number is already findable, with nothing changed. Otherwise only the next slot is written, the count grows by one and the register number is returned. With non-null data and a type, the number is then findable at that slot; the table stays free of duplicates |
| Slave.ModbusSlave.AddCoil | src/ModbusRTU.h:430-436 | addRegister with a coil entry: -1 when the table is full or the number is taken, otherwise the register number, as its comment promises |
| Slave.ModbusSlave.AddDiscreteInput | src/ModbusRTU.h:438-444 | addRegister with a discrete-input entry: -1 when the table is full or the number is taken, otherwise the register number, as its comment promises |
| Slave.ModbusSlave.AddInputRegister | src/ModbusRTU.h:446-452 | addRegister with an input-register entry: -1 when the table is full or the number is taken, otherwise the register number, as its comment promises |
| Slave.ModbusSlave.AddHoldingRegister | src/ModbusRTU.h:454-460 | addRegister with a holding-register entry: -1 when the table is full or the number is taken, otherwise the register number, as its comment promises |
| Slave.ModbusSlave.ReadBytes | src/ModbusRTU.h:119 | readBytes takes min(waiting, max) bytes, in order, into the buffer at the offset and removes them from the input |
| Slave.ModbusSlave.Begin | src/ModbusRTU.h:465-490 | every slot is cleared (its number kept), no address is findable any more, the slave id is set (default 1), the length is 0 and up to 255 waiting bytes are discarded into the buffer |
| Slave.ModbusSlave.ClearInputFrame | src/ModbusRTU.h:160-163 | the input length becomes 0 |
| Slave.ModbusSlave.SendFrame | src/ModbusRTU.h:151-155 | the CRC is stored after the n bytes, and the sealed n + 2 bytes are written to the line |
| Slave.ModbusSlave.ThrowException | src/ModbusRTU.h:90-96 | the output buffer gets [id, code + 128, exception] and its CRC, and exactly that frame is sent |
| Slave.ModbusSlave.ReceiveFrame | src/ModbusRTU.h:115-146 | buffer, length, unread input, output buffer, frames sent and result are those of Receive |
| Slave.ModbusSlave.Classified | src/ModbusRTU.h:122-145 | the length checks and the IllegalFunction path leave the state Classify describes |
| Slave.ModbusSlave.RejectFunction | src/ModbusRTU.h:133-142 | an unknown code: the output buffer and the one frame sent are the IllegalFunction exception, up to 255 waiting bytes are drained into the buffer, and the length is 0 |
| Slave.ModbusSlave.FindBitCell | src/ModbusRTU.h:185-188 | the lookup and type test yield a cell exactly when the address resolves to the kind, and that cell is the one it resolves to |
| Slave.ModbusSlave.FindWordCell | src/ModbusRTU.h:259-262 | the same, for the word kinds |
| Slave.ModbusSlave.ReadBitAt | src/ModbusRTU.h:185-191 | found exactly when the address resolves, and then the value is that cell's |
| Slave.ModbusSlave.ReadWordAt | src/ModbusRTU.h:259-264 | found exactly when the address resolves, and then the value is that cell's |
| Slave.ModbusSlave.PackBitAt | src/ModbusRTU.h:184-201 | one loop pass: it continues exactly before the first miss, and it packs one more value |
| Slave.ModbusSlave.PackBitRange | src/ModbusRTU.h:182-202 | the loop reports completion exactly when all n addresses resolve, and leaves the values of the leading resolved addresses packed |
| Slave.ModbusSlave.ReadBits | src/ModbusRTU.h:170-243 | codes 1 and 2: output buffer and frames sent are ReadBitsEffect's |
| Slave.ModbusSlave.PackWordAt | src/ModbusRTU.h:258-271 | one loop pass: it continues exactly before the first miss, and it packs one more word |
| Slave.ModbusSlave.PackWordRange | src/ModbusRTU.h:256-272 | the loop reports completion exactly when all n addresses resolve, and leaves the words of the leading resolved addresses packed |
| Slave.ModbusSlave.ReadWords | src/ModbusRTU.h:244-309 | codes 3 and 4: output buffer and frames sent are ReadWordsEffect's |
| Slave.ModbusSlave.SetCoilAt | src/ModbusRTU.h:355-361 | one pass of the coil loop: it continues exactly before the first miss, and the cells then hold what one more write leaves |
| Slave.ModbusSlave.WriteCoil | src/ModbusRTU.h:310-328 | code 5: output, frames sent and every table cell are as WriteSingleCoilEffect says |
| Slave.ModbusSlave.WriteRegister | src/ModbusRTU.h:329-347 | code 6: output, frames sent and every table cell are as WriteSingleRegisterEffect says |
| Slave.ModbusSlave.SetCoilRange | src/ModbusRTU.h:353-369 | the coil loop completes exactly when all n addresses are coils, and each coil ends with the value of its last write |
| Slave.ModbusSlave.WriteCoils | src/ModbusRTU.h:348-376 | code 15: the input buffer is as before (bytes 6-7 restored), and output, frames sent and cells are as WriteCoilsEffect says |
| Slave.ModbusSlave.SetRegisterAt | src/ModbusRTU.h:384-390 | one pass of the register loop: it continues exactly before the first miss, and the cells then hold what one more write leaves |
| Slave.ModbusSlave.SetRegisterRange | src/ModbusRTU.h:382-398 | the register loop completes exactly when all n addresses are holding registers, and each register ends with its last write |
| Slave.ModbusSlave.WriteRegisters | src/ModbusRTU.h:377-407 | code 16: output, frames sent and cells are as WriteRegistersEffect says |
| Slave.ModbusSlave.CopyRequestHeader | src/ModbusRTU.h:400-405 | request bytes 0-5 are copied into the output buffer, and the rest of it is kept |
| Slave.ModbusSlave.ParseFrame | src/ModbusRTU.h:168-408 | the input buffer is unchanged; output, frames sent and every table cell are as Parse says |
| Slave.ModbusSlave.ParseRead | src/ModbusRTU.h:170-309 | codes 1 to 4: output buffer and frames sent are as Parse says, and Parse writes no cell for them |
| Slave.ModbusSlave.ParseWrite | src/ModbusRTU.h:310-407 | any other code: input buffer kept, and output, frames sent and every table cell are as Parse says (nothing at all for codes outside the eight) |
| Slave.ModbusSlave.IsFrameCorrupted | src/ModbusRTU.h:81-85 | corrupted exactly when the buffered frame is not its payload sealed with that payload's CRC |
| Slave.ModbusSlave.HandleFrame | src/ModbusRTU.h:500-517 | a foreign or corrupted frame is dropped, any other is parsed, and the length becomes 0 |
| Slave.ModbusSlave.Update | src/ModbusRTU.h:495-519 | buffer, length, unread input, output, frames sent and every table cell are as UpdateSpec says |

## Left out

- Hardware and serial setup are not modelled: `pinMode`, the baud rate, `HardwareSerial::begin` and `setTimeout`, and the `m_pHardwareSerial` pointer. `flush()` only waits for transmission, so it changes no modelled state.
- The serial line is modelled as two sequences: the bytes waiting to be read, and the frames written. `available()` means that input is waiting. `readBytes` with a zero timeout takes at most the bytes already waiting. Timing, including inter-frame silence, is not modelled.
- The checksum `crc16` is only declared in src/ModbusRTU.h. It is a parameter of the slave, so nothing here depends on its definition.
- `endianSwap16` is only declared in src/ModbusRTU.h. It is modelled as a byte swap on a little-endian host: words on the wire are big-endian, and a trailing CRC and the host-order word of code 5 are read low byte first. `endianSwap32` is unused.
- Raw pointer casts are modelled as typed cells: `bool` cells for coils and discrete inputs, `uint16_t` cells for the word kinds. The `add*` wrappers only create such pairs. Caller-owned cells may be shared between entries; the write logs (`Latest`) handle that aliasing.
- Bytes and words are integer subranges, and the 8- and 16-bit truncations of the source are written out where they occur.
- Slave.ModbusSlave.AddRegister: on success the C++ function falls off its end without a return statement, so its value is undefined. The model returns the register number, which the comments of the `add*` wrappers (src/ModbusRTU.h:430, 438, 446, 454) promise.
- Slave.ModbusSlave.constructor: `m_AssignedRegisters`, `m_InputFrameLength` and `m_SlaveID` are not initialised by the C++ constructor. The model starts them at 0 (and states so), as for an object in static storage.
- Requests.BitByteCount: the float `ceil(n / 8.0f)` is modelled as the integer (n + 7) / 8, which is exact for every 16-bit n. Its conversion to an 8-bit `byte` is taken modulo 256. For counts above 255 that conversion is undefined behaviour in C++; such counts only reach the wire in frames the buffer-bound preconditions already exclude.
- The handlers do not check the quantity against the 255-byte buffers, so a large quantity writes or reads past them. That is undefined behaviour, and it is excluded by preconditions. `ReadBitsFit`, `ReadWordsFit`, `WriteCoilsFit`, `WriteRegistersFit`, `Fits`, `Admissible` and `UpdateFits` admit exactly the requests whose touched indices lie inside the buffers. The touched indices depend on how many leading addresses resolve.
- Slave.ModbusSlave.ReadBits and Slave.ModbusSlave.ReadWords build the packed reply as a sequence and store it into `m_OutputFrame` once, before the exception or the reply is sent. The C++ stores each bit or word into the array directly. Every byte of the resulting buffer is the same, but the order of the individual stores is not modelled.
- Slave.ModbusSlave.SetCoilRange and Slave.ModbusSlave.SetRegisterRange read the request from a snapshot of `m_InputFrame`. Cells are not part of the input buffer, so the bytes read are the same.
- The loop bodies and lookups of the handlers are separate methods, each with its own contract: `PackBitAt`, `PackWordAt`, `SetCoilAt`, `SetRegisterAt`, `FindBitCell`, `FindWordCell`, `ReadBitAt`, `ReadWordAt`, `CopyRequestHeader`, `StoreOutput`, `Classified`, `RejectFunction`, `ParseRead`, `ParseWrite` and `HandleFrame`.
- IllegalDataValue is declared but never raised by the source, so no model path raises it.
- Liveness is not modelled. A buffer that fills without a length match stays stuck; `ReceiveNeverCompletesOverlong` states the safety side of that.

## Findings

| source | as written | input that shows it | evidently intended | confidence | as-written member | corrected member |
|---|---|---|---|---|---|---|
| src/ModbusRTU.h:84 | `crc16(...) != *(short*)&frame[frameLength - 2]` compares a `uint16_t` with a `short`. Where `int` is wider than 16 bits, both are widened to `int` first, so a trailer of 0x8000 or more reads as a negative number and never equals the CRC | any correctly sealed request whose CRC is 0x8000 or more, on a 32-bit target | compare the 16 bits: the frame passes exactly when its trailer is the CRC of the payload, low byte first | not executed; on 8-bit AVR, where `int` has 16 bits, the comparison is already bitwise | Assembler.WideIntRejectsHighCrc | Assembler.CorruptedIffNotSealed |

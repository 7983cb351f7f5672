# UVM assembler and interpreter (dz4) in Dafny

This project models the two halves of the `dz4` toolchain for a small
virtual machine, UVM:

- **The assembler** (`assemble`). Each source line is a mnemonic
  (`LOAD_CONST`, `READ_MEM`, `WRITE_MEM`, `ABS`) with integer arguments. It
  becomes one 64-bit instruction word, built from masked, shifted fields
  combined with bitwise or. The assembler also records one trace record per
  line, carrying the word as 16 upper-case hex digits. The words go to the
  binary stream as 8 big-endian bytes each.
- **The interpreter** (`interpret`). It reads the stream back 8 bytes at a
  time and decodes every word with ONE fixed field layout:
  - A is bits 63-61,
  - B is bits 60-41,
  - C is bits 40-21,
  - D is bits 14-0.

  It executes the words in order on 1024 zeroed cells and returns the
  (address, value) pairs of the requested range.

The two field layouts agree only for `READ_MEM`. The model keeps the
mismatch as the behaviour of the system and proves what it leads to:

- `WRITE_MEM` and `ABS` write their source address into bits 19-0, so the
  decoder always sees C = 0.
- `LOAD_CONST` writes a 43-bit constant into bits 42-0. The decoder sees
  the constant's bits 40-21 as C. The constant's bits 42-41 are ored into
  B's two lowest bits.

The modules:

- `Bits` (`bits.dfy`):
  - Python's `|` on non-negative integers (`Or`);
  - powers of two;
  - division with remainder;
  - fixed-width digit strings (`ToDigits`/`FromDigits`) and their round trip.
- `Results` (`results.dfy`): `Result` and `Option`.
- `Wire` (`wire.dfy`):
  - `int.to_bytes(8, 'big')` and `int.from_bytes` as `WordToBytes` and
    `BytesToWord`;
  - how the interpreter cuts a byte stream into words (`Deserialize`).
- `Assembler` (`assembler.dfy`):
  - the per-line encoder `EncodeLine`;
  - the trace's hex rendering;
  - the encoding loop `EncodeProgram`, proved against the specification
    function `EncodeAll`;
  - the byte-writing loop `WriteBinary`;
  - `Assemble`.
- `Interpreter` (`interpreter.dfy`):
  - the decoder `Decode`;
  - the effect of one instruction, `Execute`;
  - the in-place `Step` on a memory array;
  - the run of a whole stream, `Run`;
  - the execute loop `Interpret`, proved against `Run`;
  - invariants of reachable memory.
- `Layout` (`layout.dfy`): what each packing expression is as a number, and
  what the decoder and the interpreter make of every mnemonic's word.
- `Scenario` (`scenario.dfy`): the program `LOAD_CONST 0 42`,
  `LOAD_CONST 1 0`, `WRITE_MEM 1 0`, assembled and then interpreted.

Integers are unbounded, as in Python. A word is a natural number below
2^64. Python's `x & 0xFFFFF` is written `x % 0x10_0000`, which agrees with
Python on negative `x` too, since Dafny's `%` is Euclidean. `x << k` is
written as a product, and `x >> k` as a division.

Three consequences of `dz4/dz4.py` worth stating outright:

- **LOAD_CONST address corruption.** The decoded address differs from B's
  low 20 bits exactly when the constant's bits 42-41 include a bit that is
  clear in B's two lowest bits.
  - Bits already set in B are left as they are by the or.
  - `Layout.LoadConstKeepsAddress` states the exact condition.
  - `Layout.LoadConstCorruptsAddress` states the corrupted value when B's
    two lowest bits are both clear.
- **`LOAD_CONST 0 42; LOAD_CONST 1 0; WRITE_MEM 1 0` dumps 0 → 0 and
  1 → 0.** The decoded C of `LOAD_CONST 0 42` is bits 40-21 of 42, which
  is 0. `WRITE_MEM 1 0` decodes to B = 1, C = 0, so it copies cell 0 onto
  itself.
- **Arguments may be negative.** The code masks negative arguments like
  any others.

## Model

| member | source | states |
|---|---|---|
| Wire.WordBytesRoundTrip | dz4/dz4.py:49 | reading back the 8 big-endian bytes written for a word gives the word |
| Wire.BytesWordRoundTrip | dz4/dz4.py:66 | any 8 bytes read as a big-endian word and written back are the same 8 bytes |
| Wire.WordToBytes | dz4/dz4.py:49 | a word is written as exactly 8 bytes |
| Wire.WordToBytesBigEndian | dz4/dz4.py:49 | byte i of a word's 8 bytes is its base-256 digit of weight 256^(7 - i): most significant first |
| Wire.BytesToWordBigEndian | dz4/dz4.py:66 | reading 8 bytes, byte i becomes the word's base-256 digit of weight 256^(7 - i) |
| Wire.Deserialize | dz4/dz4.py:65-66 | a stream of 8k bytes holds exactly k words |
| Wire.DeserializeChunks | dz4/dz4.py:65-66 | the 8-byte chunk j of the stream is exactly the bytes of word j |
| Assembler.EncodeLine | dz4/dz4.py:21-42 | a line yields a word iff its mnemonic is one of the four and it has 2 (3 for READ_MEM) arguments; otherwise the error is UnknownCommand or WrongArgumentCount naming the expected and given counts |
| Assembler.Hex | dz4/dz4.py:45 | the trace's rendering of a word is exactly 16 characters, each an upper-case hexadecimal digit |
| Assembler.HexRoundTrip | dz4/dz4.py:45 | the 16 hex digits in the trace denote exactly the word written to the binary |
| Assembler.EncodeAll | dz4/dz4.py:16-45 | a successful encoding has one word and one trace record per source line |
| Assembler.EncodeAllOk | dz4/dz4.py:16-45 | the program encodes iff every line does; word i is line i's word and trace record i holds line i's mnemonic, arguments and the word's hex |
| Assembler.EncodeAllErr | dz4/dz4.py:41-42 | a failed encoding reports the error of the first rejected line, and every earlier line was accepted |
| Assembler.EncodeAllStop | dz4/dz4.py:16-45 | the first rejected line decides the outcome, whatever the lines after it |
| Assembler.EncodeProgram | dz4/dz4.py:16-45 | the encoding loop returns exactly EncodeAll of the lines |
| Assembler.WriteBinary | dz4/dz4.py:47-49 | the binary is 8 bytes per word, chunk i is word i's big-endian bytes, and cutting the binary back into words gives the words |
| Assembler.Assemble | dz4/dz4.py:16-49 | assembly succeeds iff every line encodes; then the binary holds 8 bytes per line, word i read back from the binary is line i's word, and trace record i holds line i's mnemonic, its arguments and the word's hex; on failure the error is the first rejected line's |
| Interpreter.Decode | dz4/dz4.py:67-70 | the decoded A, B, C and D fit 3, 20, 20 and 15 bits |
| Interpreter.DecodeReassembles | dz4/dz4.py:67-70 | the four fields and the undecoded bits 20-15 make up the whole word: decoding loses only those six bits |
| Interpreter.DecodeCompose | dz4/dz4.py:67-70 | fields within their widths composed at bits 61, 41, 21 and 0 form a 64-bit word that decodes back to them |
| Interpreter.Zeroed | dz4/dz4.py:64 | the initial memory has 1024 cells, all 0 |
| Interpreter.Abs | dz4/dz4.py:79 | `abs(x)` is non-negative and is x or -x |
| Interpreter.Execute | dz4/dz4.py:72-79 | a successful instruction keeps the memory size and changes at most one cell; an opcode other than 0, 1, 5 and 6 leaves memory as it was |
| Interpreter.Step | dz4/dz4.py:72-79 | one pass of the loop body on the memory array succeeds iff Execute does, and then leaves the array holding Execute's memory; on a fault the array is unchanged |
| Interpreter.Run | dz4/dz4.py:64-79 | a successful run keeps the memory size; a fault names an instruction of the stream |
| Interpreter.RunFaultIsFinal | dz4/dz4.py:65-79 | once an instruction faults, the instructions after it do not change the outcome |
| Interpreter.RunFaultAt | dz4/dz4.py:65-79 | a fault at instruction k means the first k instructions ran and instruction k's access left memory |
| Interpreter.Enumerate | dz4/dz4.py:85 | the dump has one row per cell, row i is (start + i, cell i), and addresses ascend |
| Interpreter.Interpret | dz4/dz4.py:61-86 | interpreting a binary gives the enumerated slice [lo, hi) of the memory Run reaches from zeroed memory on the words the binary holds, or Run's fault |
| Interpreter.ExecutePreservesBounded | dz4/dz4.py:72-79 | an instruction keeps every cell within [0, 2^20) |
| Interpreter.RunPreservesBounded | dz4/dz4.py:64-79 | a whole run keeps every cell within [0, 2^20) |
| Interpreter.ReachableMemoryBounded | dz4/dz4.py:64-79 | every memory a run reaches from zeroed memory has all cells within [0, 2^20), so no index is ever negative |
| Interpreter.AbsIsWriteMemOnNonNegative | dz4/dz4.py:76-79 | on memory whose cells are non-negative, ABS does exactly what WRITE_MEM does |
| Interpreter.ReachableAbsIsWriteMem | dz4/dz4.py:76-79 | in every reachable memory, an ABS word acts as the same word with opcode WRITE_MEM |
| Interpreter.AbsOfNegativeSeven | dz4/dz4.py:79 | ABS whose source cell holds -7 stores 7 at the destination cell |
| Layout.PackHeadValue | dz4/dz4.py:25 | the opcode-and-B head of every packing expression is the sum of the masked opcode and B at bits 61 and 41 |
| Layout.PackReadMemValue | dz4/dz4.py:30 | READ_MEM's word is its masked opcode, B, C and D at exactly the decoder's positions |
| Layout.PackLowCValue | dz4/dz4.py:35-40 | the packing expression shared by WRITE_MEM and ABS is the head plus the masked source address in bits 19-0 |
| Layout.PackLoadConstValue | dz4/dz4.py:25 | LOAD_CONST's word has B's low 20 bits ored with the constant's bits 42-41 at bit 41, and the constant's bits 40-0 below |
| Layout.ReadMemRoundTrip | dz4/dz4.py:26-30 | READ_MEM always encodes; decoding gives opcode 6 and B, C, D masked to 20, 20 and 15 bits; arguments in range come back unchanged |
| Layout.WriteMemDecode | dz4/dz4.py:31-35 | WRITE_MEM always encodes; decoding gives opcode 1, B masked, C = 0 whatever the source address, and D = its low 15 bits |
| Layout.AbsDecode | dz4/dz4.py:36-40 | ABS always encodes; decoding gives opcode 0, B masked, C = 0 whatever the source address, and D = its low 15 bits |
| Layout.LoadConstDecode | dz4/dz4.py:21-25 | LOAD_CONST always encodes; decoding gives opcode 5, B = B's low 20 bits ored with the constant's bits 42-41, C = the constant's bits 40-21, D = its bits 14-0 |
| Layout.LoadConstKeepsAddress | dz4/dz4.py:25 | the decoded address equals B's low 20 bits iff the constant's bits 42-41 are already set in B's two lowest bits |
| Layout.LoadConstCorruptsAddress | dz4/dz4.py:25 | with B's two lowest bits clear and the constant's bits 42-41 not both clear, the decoded address is B's low 20 bits plus those two bits, never B's low 20 bits |
| Layout.SmallConstantLoadsZero | dz4/dz4.py:25 | a constant in [0, 2^21) decodes to C = 0 with B unchanged |
| Layout.EncodedOpcode | dz4/dz4.py:21-40 | every accepted line's word decodes to its mnemonic's opcode |
| Layout.SmallConstantStoresZero | dz4/dz4.py:72-73 | executing LOAD_CONST with an in-memory address and a constant in [0, 2^21) stores 0 at that address |
| Layout.WriteMemCopiesFromCellZero | dz4/dz4.py:76-77 | executing WRITE_MEM B C with B in memory copies memory[memory[0]] to memory[memory[B]], whatever integer C is |
| Scenario.ProgramEncodes | dz4/dz4.py:16-45 | every line of the three-line program is accepted |
| Scenario.ProgramStepKeepsZero | dz4/dz4.py:72-77 | each of the program's three words, executed on zeroed memory, leaves it zeroed |
| Scenario.ProgramRunsToZero | dz4/dz4.py:64-79 | running the program's three words from zeroed memory ends in zeroed memory |
| Scenario.DumpOfZeroed | dz4/dz4.py:81-86 | the dump of cells 0 and 1 of zeroed memory is (0, 0), (1, 0) |
| Scenario.AssembleAndInterpret | dz4/dz4.py:16-86 | assembling the program and interpreting its binary over [0, 2) dumps (0, 0) and (1, 0) |

## Left out

- File and console I/O:
  - reading the source and the binary;
  - writing the binary, the trace CSV and the dump CSV;
  - the command-line parser.

  The binary, the trace and the dump are values returned by `Assemble` and
  `Interpret`.
- Tokenising a source line (`strip().split()`, `int()`). A `SourceLine`
  holds an already split mnemonic and integer arguments. Neither the
  `ValueError` of a non-integer argument nor the `IndexError` of an empty
  line is modelled.
- Exceptions are modelled as `Err` values carrying the cause:
  - `AsmError` covers the unknown mnemonic and the wrong argument count;
  - `IndexError(k)` names the faulting instruction.

  Python's messages are not modelled.
- Interpreter.Execute: any memory index outside [0, 1024) is a fault,
  whereas Python also accepts a negative index and counts it from the end.
  `Interpreter.ReachableMemoryBounded` shows that no run from zeroed memory
  ever forms a negative index: every cell stays in [0, 2^20) and every
  decoded field is non-negative. So the two agree on every reachable state.
- Interpreter.Interpret requires the binary's length to be a multiple of 8.
  Python would decode a shorter final chunk as a smaller integer.
- Interpreter.Interpret requires 0 <= lo <= hi <= 1024. Python's slice also
  accepts out-of-range bounds (clamping them) and negative ones (counting
  from the end).
- Interpreter.Interpret keeps the decoded word stream only as a ghost
  variable. The loop decodes each 8-byte chunk as it goes, as the source
  does.

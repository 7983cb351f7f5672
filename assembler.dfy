/**
 * The assembler: one source line, already split into a mnemonic and its
 * integer arguments, becomes one 64-bit instruction word and one trace
 * record; a program becomes the binary stream of its words.
 *
 * Field layout written by each mnemonic (bit ranges inclusive):
 *   all         A = opcode           bits 63-61  (3 bits)
 *               B = first argument   bits 60-41  (20 bits)
 *   LOAD_CONST  C = constant         bits 42-0   (43 bits, overlapping B's bits 41-42)
 *   READ_MEM    C = base address     bits 40-21  (20 bits)
 *               D = offset           bits 14-0   (15 bits)
 *   WRITE_MEM,
 *   ABS         C = source address   bits 19-0   (20 bits)
 * Every argument is masked to its field's width; nothing reports an overflow.
 */
module Assembler {
  import opened Bits
  import opened Results
  import opened Wire

  const LOAD_CONST: string := "LOAD_CONST"
  const READ_MEM: string := "READ_MEM"
  const WRITE_MEM: string := "WRITE_MEM"
  const ABS: string := "ABS"

  /** Why a source line is rejected. */
  datatype AsmError =
    | UnknownCommand(command: string)
    | WrongArgumentCount(command: string, expected: nat, given: nat)

  /** A source line after tokenising: the mnemonic and its integer arguments. */
  datatype SourceLine = SourceLine(command: string, args: seq<int>)

  /** One row of the trace: mnemonic, arguments, and the word as 16 hex digits. */
  datatype TraceRecord = TraceRecord(command: string, args: seq<int>, instruction: string)

  /** The words of a program, in source order, with their trace. */
  datatype Encoding = Encoding(words: seq<Word>, trace: seq<TraceRecord>)

  /** What `assemble` writes: the binary stream and the trace. */
  datatype Assembly = Assembly(binary: seq<Byte>, trace: seq<TraceRecord>)

  predicate IsMnemonic(command: string)
  {
    command == LOAD_CONST || command == READ_MEM || command == WRITE_MEM || command == ABS
  }

  /** The opcode table. */
  function OpcodeOf(command: string): (op: nat)
    requires IsMnemonic(command)
    ensures op < 8
  {
    if command == LOAD_CONST then OP_LOAD_CONST
    else if command == READ_MEM then OP_READ_MEM
    else if command == WRITE_MEM then OP_WRITE_MEM
    else OP_ABS
  }

  /** How many integers each mnemonic's tuple unpacking expects. */
  function ArityOf(command: string): nat
    requires IsMnemonic(command)
  {
    if command == READ_MEM then 3 else 2
  }

  // The packing expressions, one per source line that builds a word.  The
  // masks and shifts are written as the numbers they stand for:
  // `x & 0x7` is x % 0x8, `x & 0xFFFFF` is x % 0x10_0000, `x << 41` is
  // x * 0x200_0000_0000, and so on.

  /** `((A & 0x7) << 61) | ((B & 0xFFFFF) << 41)`, the head of every packing expression. */
  function PackHead(a: int, b: int): (w: Word)
  {
    OrWord(a % 0x8 * 0x2000_0000_0000_0000, b % 0x10_0000 * 0x200_0000_0000);
    Or(a % 0x8 * 0x2000_0000_0000_0000, b % 0x10_0000 * 0x200_0000_0000)
  }

  /** `PackHead(A, B) | (C & 0x7FFFFFFFFFF)` */
  function PackLoadConst(a: int, b: int, c: int): (w: Word)
  {
    OrWord(PackHead(a, b), c % 0x800_0000_0000);
    Or(PackHead(a, b), c % 0x800_0000_0000)
  }

  /** `PackHead(A, B) | ((C & 0xFFFFF) << 21) | (D & 0x7FFF)` */
  function PackReadMem(a: int, b: int, c: int, d: int): (w: Word)
  {
    OrWord(PackHead(a, b), c % 0x10_0000 * 0x20_0000);
    var abc := Or(PackHead(a, b), c % 0x10_0000 * 0x20_0000);
    OrWord(abc, d % 0x8000);
    Or(abc, d % 0x8000)
  }

  /** `PackHead(A, B) | (C & 0xFFFFF)`, shared by WRITE_MEM and ABS. */
  function PackLowC(a: int, b: int, c: int): (w: Word)
  {
    OrWord(PackHead(a, b), c % 0x10_0000);
    Or(PackHead(a, b), c % 0x10_0000)
  }

  /**
   * The per-line encoder: dispatch on the mnemonic, unpack exactly the
   * expected number of arguments, pack.  A line yields a word exactly when
   * its mnemonic is one of the four and it has that mnemonic's number of
   * arguments; otherwise the error names what is wrong, and there is no word.
   */
  function EncodeLine(command: string, args: seq<int>): (r: Result<Word, AsmError>)
    ensures r.Ok? <==> IsMnemonic(command) && |args| == ArityOf(command)
    ensures !IsMnemonic(command) ==> r == Err(UnknownCommand(command))
    ensures IsMnemonic(command) && |args| != ArityOf(command) ==>
              r == Err(WrongArgumentCount(command, ArityOf(command), |args|))
  {
    if command == LOAD_CONST then
      if |args| != 2 then Err(WrongArgumentCount(command, 2, |args|))
      else Ok(PackLoadConst(OpcodeOf(command), args[0], args[1]))
    else if command == READ_MEM then
      if |args| != 3 then Err(WrongArgumentCount(command, 3, |args|))
      else Ok(PackReadMem(OpcodeOf(command), args[0], args[1], args[2]))
    else if command == WRITE_MEM then
      if |args| != 2 then Err(WrongArgumentCount(command, 2, |args|))
      else Ok(PackLowC(OpcodeOf(command), args[0], args[1]))
    else if command == ABS then
      if |args| != 2 then Err(WrongArgumentCount(command, 2, |args|))
      else Ok(PackLowC(OpcodeOf(command), args[0], args[1]))
    else
      Err(UnknownCommand(command))
  }

  function Encode(line: SourceLine): Result<Word, AsmError>
  {
    EncodeLine(line.command, line.args)
  }

  // ---------------------------------------------------------------------------
  // The trace's hexadecimal rendering

  const HEX_DIGITS: string := "0123456789ABCDEF"

  /** `f"{w:016X}"`: sixteen upper-case hexadecimal digits, zero-padded. */
  function Hex(w: Word): (s: string)
    ensures |s| == 16
    ensures forall i :: 0 <= i < |s| ==> s[i] in HEX_DIGITS
  {
    var ds := ToDigits(w, 16, 16);
    seq(16, i requires 0 <= i < 16 => HEX_DIGITS[ds[i]])
  }

  /** The value of one upper-case hexadecimal digit. */
  function HexDigitValue(ch: char): nat
  {
    if '0' <= ch <= '9' then ch as nat - '0' as nat
    else if 'A' <= ch <= 'F' then ch as nat - 'A' as nat + 10
    else 0
  }

  /** The number a string of hexadecimal digits denotes. */
  function HexValue(s: string): nat
  {
    FromDigits(seq(|s|, i requires 0 <= i < |s| => HexDigitValue(s[i])), 16)
  }

  lemma HexDigitRoundTrip(d: nat)
    requires d < 16
    ensures HexDigitValue(HEX_DIGITS[d]) == d
  {
  }

  /** The trace's hexadecimal text denotes exactly the word written to the binary. */
  lemma HexRoundTrip(w: Word)
    ensures HexValue(Hex(w)) == w
  {
    var ds := ToDigits(w, 16, 16);
    var s := Hex(w);
    forall i | 0 <= i < 16
      ensures HexDigitValue(s[i]) == ds[i]
    {
      HexDigitRoundTrip(ds[i]);
    }
    assert seq(|s|, i requires 0 <= i < |s| => HexDigitValue(s[i])) == ds;
    WordPowers();
    DigitsRoundTrip(w, 16, 16);
  }

  // ---------------------------------------------------------------------------
  // Whole programs

  /**
   * The specification of the encoding loop: the words and trace records of
   * the lines in order, or the error of the first line that is rejected.
   */
  function EncodeAll(lines: seq<SourceLine>): (r: Result<Encoding, AsmError>)
    ensures r.Ok? ==> |r.value.words| == |lines| && |r.value.trace| == |lines|
    decreases |lines|
  {
    if lines == [] then Ok(Encoding([], []))
    else
      var front := EncodeAll(lines[..|lines| - 1]);
      var last := lines[|lines| - 1];
      if front.Err? then front
      else
        match Encode(last)
        case Err(e) => Err(e)
        case Ok(w) =>
          Ok(Encoding(front.value.words + [w],
                      front.value.trace + [TraceRecord(last.command, last.args, Hex(w))]))
  }

  /** A program encodes iff each of its lines does; word i and trace record i come from line i. */
  lemma {:induction false} EncodeAllOk(lines: seq<SourceLine>)
    ensures EncodeAll(lines).Ok? <==> forall i :: 0 <= i < |lines| ==> Encode(lines[i]).Ok?
    ensures EncodeAll(lines).Ok? ==> forall i :: 0 <= i < |lines| ==>
              EncodeAll(lines).value.words[i] == Encode(lines[i]).value &&
              EncodeAll(lines).value.trace[i] ==
                TraceRecord(lines[i].command, lines[i].args, Hex(Encode(lines[i]).value))
    decreases |lines|
  {
    if lines != [] {
      var front, last := lines[..|lines| - 1], lines[|lines| - 1];
      EncodeAllOk(front);
      if EncodeAll(front).Err? {
        var j :| 0 <= j < |front| && Encode(front[j]).Err?;
        assert lines[j] == front[j];
      } else if Encode(last).Ok? {
        var done, w := EncodeAll(front).value, Encode(last).value;
        var all := EncodeAll(lines).value;
        assert all.words == done.words + [w];
        assert all.trace == done.trace + [TraceRecord(last.command, last.args, Hex(w))];
        forall i | 0 <= i < |lines|
          ensures Encode(lines[i]).Ok?
          ensures all.words[i] == Encode(lines[i]).value
          ensures all.trace[i] == TraceRecord(lines[i].command, lines[i].args, Hex(Encode(lines[i]).value))
        {
          if i < |front| {
            assert lines[i] == front[i];
            assert Encode(front[i]).Ok? && done.words[i] == Encode(front[i]).value;
            assert all.words[i] == done.words[i] && all.trace[i] == done.trace[i];
          } else {
            assert i == |done.words| == |done.trace|;
            assert lines[i] == last;
          }
        }
      }
    }
  }

  /** A rejected program reports the error of its first rejected line. */
  lemma {:induction false} EncodeAllErr(lines: seq<SourceLine>)
    ensures EncodeAll(lines).Err? ==>
              exists k :: 0 <= k < |lines| && Encode(lines[k]) == Err(EncodeAll(lines).error) &&
                          (forall j :: 0 <= j < k ==> Encode(lines[j]).Ok?)
    decreases |lines|
  {
    if lines != [] && EncodeAll(lines).Err? {
      var front := lines[..|lines| - 1];
      assert forall i :: 0 <= i < |front| ==> front[i] == lines[i];
      if EncodeAll(front).Err? {
        EncodeAllErr(front);
        var k :| 0 <= k < |front| && Encode(front[k]) == Err(EncodeAll(front).error) &&
                 (forall j :: 0 <= j < k ==> Encode(front[j]).Ok?);
        assert Encode(lines[k]) == Err(EncodeAll(lines).error);
      } else {
        EncodeAllOk(front);
        assert Encode(lines[|lines| - 1]) == Err(EncodeAll(lines).error);
      }
    }
  }

  /** One more line that encodes: its word and its trace record are appended. */
  lemma EncodeAllExtend(lines: seq<SourceLine>, i: nat, done: Encoding)
    requires i < |lines| && EncodeAll(lines[..i]) == Ok(done) && Encode(lines[i]).Ok?
    ensures EncodeAll(lines[..i + 1]) ==
              Ok(Encoding(done.words + [Encode(lines[i]).value],
                          done.trace + [TraceRecord(lines[i].command, lines[i].args, Hex(Encode(lines[i]).value))]))
  {
    assert lines[..i + 1][..i] == lines[..i];
  }

  /** A line that is rejected after accepted lines is the program's error, whatever follows it. */
  lemma {:induction false} EncodeAllStop(lines: seq<SourceLine>, i: nat)
    requires i < |lines| && EncodeAll(lines[..i]).Ok? && Encode(lines[i]).Err?
    ensures EncodeAll(lines) == Err(Encode(lines[i]).error)
    decreases |lines|
  {
    var front := lines[..|lines| - 1];
    if i < |front| {
      assert front[..i] == lines[..i] && front[i] == lines[i];
      EncodeAllStop(front, i);
    } else {
      assert front == lines[..i];
    }
  }

  /**
   * The loop over source lines: encode each line in order, appending its
   * word and its trace record; stop at the first line that is rejected.
   */
  method EncodeProgram(lines: seq<SourceLine>) returns (r: Result<Encoding, AsmError>)
    ensures r == EncodeAll(lines)
  {
    var words: seq<Word> := [];
    var trace: seq<TraceRecord> := [];
    var i := 0;
    while i < |lines|
      invariant 0 <= i <= |lines|
      invariant EncodeAll(lines[..i]) == Ok(Encoding(words, trace))
    {
      var line := lines[i];
      var encoded := Encode(line);
      if encoded.Err? {
        EncodeAllStop(lines, i);
        return Err(encoded.error);
      }
      EncodeAllExtend(lines, i, Encoding(words, trace));
      var instruction := encoded.value;
      words := words + [instruction];
      trace := trace + [TraceRecord(line.command, line.args, Hex(instruction))];
      i := i + 1;
    }
    assert lines[..i] == lines;
    return Ok(Encoding(words, trace));
  }

  /** The write loop: each word as 8 big-endian bytes, in order. */
  method WriteBinary(words: seq<Word>) returns (binary: seq<Byte>)
    ensures |binary| == WORD_BYTES * |words|
    ensures forall i :: 0 <= i < |words| ==>
              binary[WORD_BYTES * i .. WORD_BYTES * i + WORD_BYTES] == WordToBytes(words[i])
    ensures Deserialize(binary) == words
  {
    binary := [];
    var i := 0;
    while i < |words|
      invariant 0 <= i <= |words|
      invariant |binary| == WORD_BYTES * i
      invariant Deserialize(binary) == words[..i]
    {
      DeserializeAppend(binary, words[i]);
      assert words[..i + 1] == words[..i] + [words[i]];
      binary := binary + WordToBytes(words[i]);
      i := i + 1;
    }
    assert words[..i] == words;
    DeserializeChunks(binary);
  }

  /**
   * `assemble` without the file plumbing: encode every line, then write the
   * words as one binary stream.  A rejected line rejects the whole program.
   */
  method Assemble(lines: seq<SourceLine>) returns (r: Result<Assembly, AsmError>)
    ensures r.Ok? <==> forall i :: 0 <= i < |lines| ==> Encode(lines[i]).Ok?
    ensures r.Ok? ==> |r.value.binary| == WORD_BYTES * |lines| && |r.value.trace| == |lines|
    ensures r.Ok? ==> forall i :: 0 <= i < |lines| ==>
              Deserialize(r.value.binary)[i] == Encode(lines[i]).value &&
              r.value.trace[i] == TraceRecord(lines[i].command, lines[i].args, Hex(Encode(lines[i]).value))
    ensures r.Err? ==> exists k :: 0 <= k < |lines| && Encode(lines[k]) == Err(r.error) &&
                                   (forall j :: 0 <= j < k ==> Encode(lines[j]).Ok?)
  {
    var encoded := EncodeProgram(lines);
    EncodeAllOk(lines);
    EncodeAllErr(lines);
    if encoded.Err? {
      return Err(encoded.error);
    }
    var binary := WriteBinary(encoded.value.words);
    return Ok(Assembly(binary, encoded.value.trace));
  }
}

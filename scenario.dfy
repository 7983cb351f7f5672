/**
 * The assembler and the interpreter composed as the command line uses
 * them: a three-line program is assembled to a binary, the binary is
 * interpreted, and the first two memory cells are dumped.  The program
 * reads as "put 42 in cell 0, put 0 in cell 1, copy through them", but the
 * decoder sees C = 0 in both LOAD_CONST words, so both cells end at 0.
 */
module Scenario {
  import opened Results
  import opened Wire
  import opened Assembler
  import opened Interpreter
  import opened Layout

  function Program(): (lines: seq<SourceLine>)
    ensures |lines| == 3
  {
    [SourceLine(LOAD_CONST, [0, 42]), SourceLine(LOAD_CONST, [1, 0]), SourceLine(WRITE_MEM, [1, 0])]
  }

  /** Every line of the program is accepted. */
  lemma ProgramEncodes()
    ensures forall i :: 0 <= i < |Program()| ==> Encode(Program()[i]).Ok?
  {
    forall i | 0 <= i < |Program()|
      ensures Encode(Program()[i]).Ok?
    {
      if i == 0 {
        SmallConstantLoadsZero(0, 42);
      } else if i == 1 {
        SmallConstantLoadsZero(1, 0);
      } else {
        WriteMemDecode(1, 0);
      }
    }
  }

  /** Each of the program's words leaves zeroed memory zeroed. */
  lemma ProgramStepKeepsZero(ws: seq<Word>, k: nat)
    requires |ws| == 3 && forall i :: 0 <= i < 3 ==> Encode(Program()[i]) == Ok(ws[i])
    requires k < 3
    ensures Execute(Zeroed(), Decode(ws[k])) == Some(Zeroed())
  {
    var z := Zeroed();
    assert Encode(Program()[k]) == Ok(ws[k]);
    if k == 0 {
      SmallConstantStoresZero(z, 0, 42);
      assert z[0 := 0] == z;
    } else if k == 1 {
      SmallConstantStoresZero(z, 1, 0);
      assert z[1 := 0] == z;
    } else {
      WriteMemCopiesFromCellZero(z, 1, 0);
      assert z[z[1] := z[z[0]]] == z;
    }
  }

  /** Executing the program's words from zeroed memory leaves memory zeroed. */
  lemma {:induction false} ProgramRunsToZero(ws: seq<Word>)
    requires |ws| == 3 && forall i :: 0 <= i < 3 ==> Encode(Program()[i]) == Ok(ws[i])
    ensures Run(Zeroed(), ws) == Ok(Zeroed())
  {
    var z := Zeroed();
    assert ws[..0] == [];
    ProgramStepKeepsZero(ws, 0);
    RunExtend(z, ws, 0);
    ProgramStepKeepsZero(ws, 1);
    RunExtend(z, ws, 1);
    ProgramStepKeepsZero(ws, 2);
    RunExtend(z, ws, 2);
    assert ws[..3] == ws;
  }

  /** The dump of cells 0 and 1 of zeroed memory. */
  lemma DumpOfZeroed()
    ensures Enumerate(Zeroed()[0..2], 0) == [(0, 0), (1, 0)]
  {
    var rows := Enumerate(Zeroed()[0..2], 0);
    assert rows[0] == (0, 0) && rows[1] == (1, 0);
  }

  /** Assemble the program, interpret its binary, and dump cells 0 and 1. */
  method AssembleAndInterpret() returns (r: Result<seq<(int, int)>, Fault>)
    ensures r == Ok([(0, 0), (1, 0)])
  {
    var lines := Program();
    ProgramEncodes();
    var assembled := Assemble(lines);
    assert assembled.Ok?;
    var binary := assembled.value.binary;
    var ws := Deserialize(binary);
    assert |binary| == WORD_BYTES * 3;
    assert forall i :: 0 <= i < 3 ==> Encode(Program()[i]) == Ok(ws[i]);
    ProgramRunsToZero(ws);
    r := Interpret(binary, 0, 2);
    DumpOfZeroed();
  }
}

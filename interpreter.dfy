/**
 * The interpreter: a 1024-cell memory, zeroed at the start of every run, and
 * the binary stream executed one word at a time in stream order.
 *
 * Decoding is the same for every word, whatever mnemonic wrote it:
 *   A = bits 63-61, B = bits 60-41, C = bits 40-21, D = bits 14-0.
 * Execution, dispatching on A:
 *   5 (LOAD_CONST)  memory[B] := C
 *   6 (READ_MEM)    memory[B] := memory[memory[C] + D]
 *   1 (WRITE_MEM)   memory[memory[B]] := memory[memory[C]]
 *   0 (ABS)         memory[memory[B]] := |memory[memory[C]]|
 *   2, 3, 4, 7      nothing
 * An index outside [0, 1024) stops the run (Python raises IndexError).
 */
module Interpreter {
  import opened Bits
  import opened Results
  import opened Wire

  const MEMORY_SIZE: nat := 1024

  /** The four fields the decoder extracts from a word. */
  datatype Fields = Fields(a: nat, b: nat, c: nat, d: nat)

  /** The run stopped because instruction number `instruction` indexed outside memory. */
  datatype Fault = IndexError(instruction: nat)

  /** `(w >> 61) & 0x7`, `(w >> 41) & 0xFFFFF`, `(w >> 21) & 0xFFFFF`, `w & 0x7FFF` */
  function Decode(w: Word): (f: Fields)
    ensures f.a < 8 && f.b < 0x10_0000 && f.c < 0x10_0000 && f.d < 0x8000
  {
    Fields(w / 0x2000_0000_0000_0000 % 0x8, w / 0x200_0000_0000 % 0x10_0000,
           w / 0x20_0000 % 0x10_0000, w % 0x8000)
  }

  /**
   * The number whose bits 63-61, 60-41, 40-21, 20-15 and 14-0 are a, b, c,
   * e and d: the decoder's view of a word, with e the six bits no field covers.
   */
  function Compose(a: nat, b: nat, c: nat, e: nat, d: nat): nat
  {
    a * 0x2000_0000_0000_0000 + b * 0x200_0000_0000 + c * 0x20_0000 + e * 0x8000 + d
  }

  /** Decoding loses exactly bits 20-15: the fields and those bits make up the word. */
  lemma DecodeReassembles(w: Word)
    ensures var f := Decode(w);
            w == Compose(f.a, f.b, f.c, w / 0x8000 % 0x40, f.d)
  {
    Pow2Values();
    WordLimit();
    ModSmall(w, Pow2(64));
    FieldSplit(w, 61, 3);
    FieldSplit(w, 41, 20);
    FieldSplit(w, 21, 20);
    FieldSplit(w, 15, 6);
  }

  /** Fields that fit their widths are a word, and decoding that word gives them back. */
  lemma DecodeCompose(a: nat, b: nat, c: nat, e: nat, d: nat)
    requires a < 0x8 && b < 0x10_0000 && c < 0x10_0000 && e < 0x40 && d < 0x8000
    ensures Compose(a, b, c, e, d) < 0x1_0000_0000_0000_0000
    ensures Decode(Compose(a, b, c, e, d)) == Fields(a, b, c, d)
  {
    var w := Compose(a, b, c, e, d);
    DivModUnique(w, 0x2000_0000_0000_0000, a, b * 0x200_0000_0000 + c * 0x20_0000 + e * 0x8000 + d);
    ModSmall(a, 0x8);
    DivModUnique(w, 0x200_0000_0000, a * 0x10_0000 + b, c * 0x20_0000 + e * 0x8000 + d);
    DivModUnique(a * 0x10_0000 + b, 0x10_0000, a, b);
    DivModUnique(w, 0x20_0000, a * 0x100_0000_0000 + b * 0x10_0000 + c, e * 0x8000 + d);
    DivModUnique(a * 0x100_0000_0000 + b * 0x10_0000 + c, 0x10_0000, a * 0x10_0000 + b, c);
    DivModUnique(w, 0x8000, a * 0x4000_0000_0000 + b * 0x400_0000 + c * 0x40 + e, d);
  }

  predicate InRange(i: int)
  {
    0 <= i < MEMORY_SIZE
  }

  function Abs(x: int): (r: int)
    ensures r >= 0 && (r == x || r == -x)
  {
    if x < 0 then -x else x
  }

  /**
   * One instruction's effect on memory, or None when an index falls outside
   * memory (in which case nothing was written).
   */
  function Execute(mem: seq<int>, f: Fields): (r: Option<seq<int>>)
    requires |mem| == MEMORY_SIZE
    ensures r.Some? ==> |r.value| == MEMORY_SIZE
    ensures r.Some? ==> forall i, j ::
              (0 <= i < MEMORY_SIZE && 0 <= j < MEMORY_SIZE && i != j && r.value[i] != mem[i]) ==>
                r.value[j] == mem[j]
    ensures f.a != OP_LOAD_CONST && f.a != OP_READ_MEM && f.a != OP_WRITE_MEM && f.a != OP_ABS ==>
              r == Some(mem)
  {
    if f.a == OP_LOAD_CONST then
      if InRange(f.b) then Some(mem[f.b := f.c]) else None
    else if f.a == OP_READ_MEM then
      if InRange(f.c) && InRange(mem[f.c] + f.d) && InRange(f.b)
      then Some(mem[f.b := mem[mem[f.c] + f.d]])
      else None
    else if f.a == OP_WRITE_MEM then
      if InRange(f.c) && InRange(mem[f.c]) && InRange(f.b) && InRange(mem[f.b])
      then Some(mem[mem[f.b] := mem[mem[f.c]]])
      else None
    else if f.a == OP_ABS then
      if InRange(f.c) && InRange(mem[f.c]) && InRange(f.b) && InRange(mem[f.b])
      then Some(mem[mem[f.b] := Abs(mem[mem[f.c]])])
      else None
    else
      Some(mem)
  }

  /** One pass of the execute loop's body, in place on the memory array. */
  method Step(memory: array<int>, w: Word) returns (ok: bool)
    requires memory.Length == MEMORY_SIZE
    modifies memory
    ensures ok <==> Execute(old(memory[..]), Decode(w)).Some?
    ensures ok ==> memory[..] == Execute(old(memory[..]), Decode(w)).value
    ensures !ok ==> memory[..] == old(memory[..])
  {
    var f := Decode(w);
    if f.a == OP_LOAD_CONST {
      if !InRange(f.b) {
        return false;
      }
      memory[f.b] := f.c;
    } else if f.a == OP_READ_MEM {
      if !InRange(f.c) || !InRange(memory[f.c] + f.d) || !InRange(f.b) {
        return false;
      }
      memory[f.b] := memory[memory[f.c] + f.d];
    } else if f.a == OP_WRITE_MEM {
      if !InRange(f.c) || !InRange(memory[f.c]) || !InRange(f.b) || !InRange(memory[f.b]) {
        return false;
      }
      memory[memory[f.b]] := memory[memory[f.c]];
    } else if f.a == OP_ABS {
      if !InRange(f.c) || !InRange(memory[f.c]) || !InRange(f.b) || !InRange(memory[f.b]) {
        return false;
      }
      memory[memory[f.b]] := Abs(memory[memory[f.c]]);
    }
    return true;
  }

  /** The memory every run starts from. */
  function Zeroed(): (mem: seq<int>)
    ensures |mem| == MEMORY_SIZE && forall i :: 0 <= i < MEMORY_SIZE ==> mem[i] == 0
  {
    seq(MEMORY_SIZE, _ => 0)
  }

  /** The memory after executing the words in order, or the first fault. */
  function Run(mem: seq<int>, ws: seq<Word>): (r: Result<seq<int>, Fault>)
    requires |mem| == MEMORY_SIZE
    ensures r.Ok? ==> |r.value| == MEMORY_SIZE
    ensures r.Err? ==> r.error.instruction < |ws|
    decreases |ws|
  {
    if ws == [] then Ok(mem)
    else
      match Run(mem, ws[..|ws| - 1])
      case Err(fault) => Err(fault)
      case Ok(before) =>
        match Execute(before, Decode(ws[|ws| - 1]))
        case None => Err(IndexError(|ws| - 1))
        case Some(after) => Ok(after)
  }

  /** Running one more instruction after a successful prefix. */
  lemma RunExtend(mem: seq<int>, ws: seq<Word>, k: nat)
    requires |mem| == MEMORY_SIZE && k < |ws|
    requires Run(mem, ws[..k]).Ok?
    ensures Run(mem, ws[..k + 1]) ==
              match Execute(Run(mem, ws[..k]).value, Decode(ws[k]))
              case None => Err(IndexError(k))
              case Some(after) => Ok(after)
  {
    assert ws[..k + 1][..k] == ws[..k];
  }

  /** A fault in a prefix of the program is the fault of the whole program. */
  lemma {:induction false} RunFaultIsFinal(mem: seq<int>, ws: seq<Word>, k: nat)
    requires |mem| == MEMORY_SIZE && k <= |ws|
    requires Run(mem, ws[..k]).Err?
    ensures Run(mem, ws) == Run(mem, ws[..k])
    decreases |ws|
  {
    if k < |ws| {
      var init := ws[..|ws| - 1];
      assert init[..k] == ws[..k];
      RunFaultIsFinal(mem, init, k);
    } else {
      assert ws[..k] == ws;
    }
  }

  /**
   * A run that faults at instruction k ran instructions 0..k-1 successfully,
   * and instruction k indexed outside memory.
   */
  lemma {:induction false} RunFaultAt(mem: seq<int>, ws: seq<Word>, k: nat)
    requires |mem| == MEMORY_SIZE
    requires Run(mem, ws) == Err(IndexError(k))
    ensures k < |ws| && Run(mem, ws[..k]).Ok?
    ensures Execute(Run(mem, ws[..k]).value, Decode(ws[k])).None?
    decreases |ws|
  {
    var init := ws[..|ws| - 1];
    if Run(mem, init).Err? {
      RunFaultAt(mem, init, k);
      assert init[..k] == ws[..k];
    } else {
      assert k == |ws| - 1;
      assert ws[..k] == init;
    }
  }

  /** `enumerate(s, start=start)` */
  function Enumerate(s: seq<int>, start: int): (rows: seq<(int, int)>)
    ensures |rows| == |s|
    ensures forall i :: 0 <= i < |s| ==> rows[i] == (start + i, s[i])
    ensures forall i, j :: 0 <= i < j < |rows| ==> rows[i].0 < rows[j].0
  {
    if s == [] then [] else [(start, s[0])] + Enumerate(s[1..], start + 1)
  }

  /**
   * `interpret` without the file plumbing: run the stream from zeroed
   * memory, then return the (address, value) pairs of memory[lo:hi].
   */
  method Interpret(binary: seq<Byte>, lo: int, hi: int) returns (r: Result<seq<(int, int)>, Fault>)
    requires |binary| % WORD_BYTES == 0
    requires 0 <= lo <= hi <= MEMORY_SIZE
    ensures var run := Run(Zeroed(), Deserialize(binary));
            r == if run.Ok? then Ok(Enumerate(run.value[lo..hi], lo)) else Err(run.error)
  {
    ghost var ws := Deserialize(binary);
    var memory := new int[MEMORY_SIZE](_ => 0);
    assert memory[..] == Zeroed();
    assert ws[..0] == [];
    // k counts instructions; the chunk of instruction k starts at byte 8 * k
    var k := 0;
    while k < |binary| / WORD_BYTES
      invariant 0 <= k <= |ws|
      invariant Run(Zeroed(), ws[..k]) == Ok(memory[..])
    {
      var instruction := BytesToWord(binary[WORD_BYTES * k .. WORD_BYTES * k + WORD_BYTES]);
      assert instruction == ws[k];
      RunExtend(Zeroed(), ws, k);
      var ok := Step(memory, instruction);
      if !ok {
        RunFaultIsFinal(Zeroed(), ws, k + 1);
        return Err(IndexError(k));
      }
      k := k + 1;
    }
    assert ws[..k] == ws;
    return Ok(Enumerate(memory[lo..hi], lo));
  }

  // ---------------------------------------------------------------------------
  // What reachable runs look like

  /** Every cell holds a value that fits the 20-bit C field. */
  predicate Bounded(mem: seq<int>)
  {
    |mem| == MEMORY_SIZE && forall i :: 0 <= i < |mem| ==> 0 <= mem[i] < 0x10_0000
  }

  lemma ExecutePreservesBounded(mem: seq<int>, w: Word)
    requires Bounded(mem)
    requires Execute(mem, Decode(w)).Some?
    ensures Bounded(Execute(mem, Decode(w)).value)
  {
  }

  lemma {:induction false} RunPreservesBounded(mem: seq<int>, ws: seq<Word>)
    requires Bounded(mem)
    requires Run(mem, ws).Ok?
    ensures Bounded(Run(mem, ws).value)
    decreases |ws|
  {
    if ws != [] {
      var init := ws[..|ws| - 1];
      RunPreservesBounded(mem, init);
      ExecutePreservesBounded(Run(mem, init).value, ws[|ws| - 1]);
    }
  }

  /** From zeroed memory, whatever ran successfully, every cell is in [0, 2^20). */
  lemma ReachableMemoryBounded(ws: seq<Word>)
    requires Run(Zeroed(), ws).Ok?
    ensures Bounded(Run(Zeroed(), ws).value)
  {
    RunPreservesBounded(Zeroed(), ws);
  }

  /** On memory whose cells are all non-negative, ABS is WRITE_MEM. */
  lemma AbsIsWriteMemOnNonNegative(mem: seq<int>, b: nat, c: nat, d: nat)
    requires |mem| == MEMORY_SIZE && forall i :: 0 <= i < |mem| ==> mem[i] >= 0
    ensures Execute(mem, Fields(OP_ABS, b, c, d)) == Execute(mem, Fields(OP_WRITE_MEM, b, c, d))
  {
  }

  /** In every reachable state, an ABS word does what the same word with opcode WRITE_MEM does. */
  lemma ReachableAbsIsWriteMem(ws: seq<Word>, w: Word)
    requires Run(Zeroed(), ws).Ok?
    requires Decode(w).a == OP_ABS
    ensures var f := Decode(w);
            Execute(Run(Zeroed(), ws).value, f) == Execute(Run(Zeroed(), ws).value, f.(a := OP_WRITE_MEM))
  {
    ReachableMemoryBounded(ws);
    var f := Decode(w);
    AbsIsWriteMemOnNonNegative(Run(Zeroed(), ws).value, f.b, f.c, f.d);
  }

  /** ABS through cell b onto cell mem[b], of a source holding -7, stores 7. */
  lemma AbsOfNegativeSeven(mem: seq<int>, b: nat, c: nat, d: nat)
    requires |mem| == MEMORY_SIZE && InRange(b) && InRange(c)
    requires InRange(mem[b]) && InRange(mem[c]) && mem[mem[c]] == -7
    ensures Execute(mem, Fields(OP_ABS, b, c, d)) == Some(mem[mem[b] := 7])
  {
  }
}

/**
 * Where the assembler's packing and the interpreter's decoding meet: the
 * word each mnemonic writes, seen through the decoder's fixed field
 * positions, and therefore what the interpreter executes for each source
 * line.  The two layouts agree only for READ_MEM: WRITE_MEM and ABS write
 * their source address into bits 19-0, where the decoder reads D and the
 * unused bits, and LOAD_CONST's 43-bit constant overlaps B's two lowest
 * bits and lies mostly below the decoder's C field.
 */
module Layout {
  import opened Bits
  import opened Results
  import opened Wire
  import opened Assembler
  import opened Interpreter

  // ---------------------------------------------------------------------------
  // The packing expressions as sums

  /** The bit positions at which the packing expressions meet. */
  predicate SplitPoint(p: nat)
  {
    p == 4 || p == 0x10_0000 || p == 0x20_0000 || p == 0x200_0000_0000 || p == 0x2000_0000_0000_0000
  }

  /** Oring a value below a split point p into hi * p + lo only touches lo. */
  lemma OrLowAt(hi: nat, lo: nat, t: nat, p: nat)
    requires SplitPoint(p) && lo < p && t < p
    ensures Or(hi * p + lo, t) == hi * p + Or(lo, t)
  {
    Pow2Values();
    var k := if p == 4 then 2 else if p == 0x10_0000 then 20 else if p == 0x20_0000 then 21
             else if p == 0x200_0000_0000 then 41 else 61;
    OrLow(hi, lo, t, k);
  }

  /** A shifted value ored with one that fits below the shift is their sum. */
  lemma OrShifted(x: nat, y: nat, p: nat)
    requires SplitPoint(p) && y < p
    ensures Or(x * p, y) == x * p + y
  {
    OrLowAt(x, 0, y, p);
    OrZero(y);
  }

  /** The or of two values below a split point is below it. */
  lemma OrFits(x: nat, y: nat, p: nat)
    requires SplitPoint(p) && x < p && y < p
    ensures Or(x, y) < p
  {
    Pow2Values();
    var k := if p == 4 then 2 else if p == 0x10_0000 then 20 else if p == 0x20_0000 then 21
             else if p == 0x200_0000_0000 then 41 else 61;
    OrBound(x, y, k);
  }

  /** Oring at bit 41: the parts above and below combine separately. */
  lemma OrSplit41(h: nat, t: nat, r: nat)
    requires r < 0x200_0000_0000
    ensures Or(h * 0x200_0000_0000, t * 0x200_0000_0000 + r) == Or(h, t) * 0x200_0000_0000 + r
  {
    Pow2Values();
    OrSplit(h, 0, t, r, 41);
    ShlIsMul(h, 41);
    ShlIsMul(t, 41);
    ShlIsMul(Or(h, t), 41);
    OrZero(r);
  }

  /** Or of equal operands. */
  lemma OrCongruent(x: nat, y: nat, x': nat, y': nat)
    requires x == x' && y == y'
    ensures Or(x, y) == Or(x', y')
  {
  }

  lemma PackHeadValue(a: int, b: int)
    ensures PackHead(a, b) == (a % 0x8 * 0x10_0000 + b % 0x10_0000) * 0x200_0000_0000
  {
    OrShifted(a % 0x8, b % 0x10_0000 * 0x200_0000_0000, 0x2000_0000_0000_0000);
  }

  /** READ_MEM's word has its three operands at the decoder's B, C and D positions. */
  lemma PackReadMemValue(a: int, b: int, c: int, d: int)
    ensures PackReadMem(a, b, c, d) == Compose(a % 0x8, b % 0x10_0000, c % 0x10_0000, 0, d % 0x8000)
  {
    PackHeadValue(a, b);
    var h := a % 0x8 * 0x10_0000 + b % 0x10_0000;
    OrShifted(h, c % 0x10_0000 * 0x20_0000, 0x200_0000_0000);
    var abc := Or(PackHead(a, b), c % 0x10_0000 * 0x20_0000);
    assert abc == (h * 0x10_0000 + c % 0x10_0000) * 0x20_0000;
    OrShifted(h * 0x10_0000 + c % 0x10_0000, d % 0x8000, 0x20_0000);
  }

  /** WRITE_MEM's and ABS's word: the head, and the 20-bit source address in bits 19-0. */
  lemma PackLowCValue(a: int, b: int, c: int)
    ensures PackLowC(a, b, c) == (a % 0x8 * 0x10_0000 + b % 0x10_0000) * 0x200_0000_0000 + c % 0x10_0000
  {
    PackHeadValue(a, b);
    OrShifted(a % 0x8 * 0x10_0000 + b % 0x10_0000, c % 0x10_0000, 0x200_0000_0000);
  }

  /** The 43 bits of LOAD_CONST's constant: bits 42-41 above bits 40-0. */
  lemma ConstantHighBits(c: int)
    ensures c % 0x800_0000_0000 == c / 0x200_0000_0000 % 4 * 0x200_0000_0000 + c % 0x200_0000_0000
  {
    DivModMul(c, 0x200_0000_0000, 4);
  }

  /** LOAD_CONST's word: the head ored with the constant's bits 42-41, above its bits 40-0. */
  lemma PackLoadConstSplit(a: int, b: int, c: int)
    ensures PackLoadConst(a, b, c) ==
              Or(a % 0x8 * 0x10_0000 + b % 0x10_0000, c / 0x200_0000_0000 % 4) * 0x200_0000_0000
              + c % 0x200_0000_0000
  {
    PackHeadValue(a, b);
    var h := a % 0x8 * 0x10_0000 + b % 0x10_0000;
    var t, r := c / 0x200_0000_0000 % 4, c % 0x200_0000_0000;
    ConstantHighBits(c);
    OrSplit41(h, t, r);
    OrCongruent(PackHead(a, b), c % 0x800_0000_0000, h * 0x200_0000_0000, t * 0x200_0000_0000 + r);
  }

  /**
   * LOAD_CONST's word: the constant's bits 42-41 are ored into B's two
   * lowest bits, and its bits 40-0 lie below B.
   */
  lemma PackLoadConstValue(a: int, b: int, c: int)
    ensures PackLoadConst(a, b, c) ==
              (a % 0x8 * 0x10_0000 + Or(b % 0x10_0000, c / 0x200_0000_0000 % 4)) * 0x200_0000_0000
              + c % 0x200_0000_0000
  {
    PackLoadConstSplit(a, b, c);
    OrLowAt(a % 0x8, b % 0x10_0000, c / 0x200_0000_0000 % 4, 0x10_0000);
  }

  // ---------------------------------------------------------------------------
  // What the decoder reads back, mnemonic by mnemonic

  /** A word known to be a composition of fields decodes to those fields. */
  lemma DecodeAt(w: Word, a: nat, b: nat, c: nat, e: nat, d: nat)
    requires a < 0x8 && b < 0x10_0000 && c < 0x10_0000 && e < 0x40 && d < 0x8000
    requires w == Compose(a, b, c, e, d)
    ensures Decode(w) == Fields(a, b, c, d)
  {
    DecodeCompose(a, b, c, e, d);
  }

  /** READ_MEM's word decodes to its operands masked to 20, 20 and 15 bits. */
  lemma ReadMemFields(b: int, c: int, d: int)
    ensures Decode(PackReadMem(OP_READ_MEM, b, c, d)) ==
              Fields(OP_READ_MEM, b % 0x10_0000, c % 0x10_0000, d % 0x8000)
  {
    PackReadMemValue(OP_READ_MEM, b, c, d);
    DecodeAt(PackReadMem(OP_READ_MEM, b, c, d), OP_READ_MEM, b % 0x10_0000, c % 0x10_0000, 0, d % 0x8000);
  }

  /** READ_MEM round trip: B, C and D come back masked to 20, 20 and 15 bits, unchanged when in range. */
  lemma ReadMemRoundTrip(b: int, c: int, d: int)
    ensures EncodeLine(READ_MEM, [b, c, d]).Ok?
    ensures Decode(EncodeLine(READ_MEM, [b, c, d]).value) ==
              Fields(OP_READ_MEM, b % 0x10_0000, c % 0x10_0000, d % 0x8000)
    ensures 0 <= b < 0x10_0000 && 0 <= c < 0x10_0000 && 0 <= d < 0x8000 ==>
              Decode(EncodeLine(READ_MEM, [b, c, d]).value) == Fields(OP_READ_MEM, b, c, d)
  {
    ReadMemFields(b, c, d);
    if 0 <= b < 0x10_0000 && 0 <= c < 0x10_0000 && 0 <= d < 0x8000 {
      ModSmall(b, 0x10_0000);
      ModSmall(c, 0x10_0000);
      ModSmall(d, 0x8000);
    }
  }

  /** WRITE_MEM's and ABS's word in the decoder's view: C empty, the source address across E and D. */
  lemma PackLowCCompose(op: nat, b: int, c: int)
    requires op < 8
    ensures PackLowC(op, b, c) == Compose(op, b % 0x10_0000, 0, c / 0x8000 % 0x20, c % 0x8000)
  {
    PackLowCValue(op, b, c);
    DivModMul(c, 0x8000, 0x20);
  }

  /** The word WRITE_MEM and ABS write decodes to C = 0 and D = the source address's low 15 bits. */
  lemma LowCDecode(op: nat, b: int, c: int)
    requires op < 8
    ensures Decode(PackLowC(op, b, c)) == Fields(op, b % 0x10_0000, 0, c % 0x8000)
  {
    PackLowCCompose(op, b, c);
    DecodeAt(PackLowC(op, b, c), op, b % 0x10_0000, 0, c / 0x8000 % 0x20, c % 0x8000);
  }

  /** WRITE_MEM's decoded C is 0 whatever the source address; its D is the address's low 15 bits. */
  lemma WriteMemDecode(b: int, c: int)
    ensures EncodeLine(WRITE_MEM, [b, c]).Ok?
    ensures Decode(EncodeLine(WRITE_MEM, [b, c]).value) == Fields(OP_WRITE_MEM, b % 0x10_0000, 0, c % 0x8000)
  {
    LowCDecode(OP_WRITE_MEM, b, c);
  }

  /** ABS's decoded C is 0 whatever the source address; its D is the address's low 15 bits. */
  lemma AbsDecode(b: int, c: int)
    ensures EncodeLine(ABS, [b, c]).Ok?
    ensures Decode(EncodeLine(ABS, [b, c]).value) == Fields(OP_ABS, b % 0x10_0000, 0, c % 0x8000)
  {
    LowCDecode(OP_ABS, b, c);
  }

  /** LOAD_CONST's word in the decoder's view: the constant's bits 40-0 spread across C, E and D. */
  lemma PackLoadConstCompose(b: int, c: int)
    ensures Or(b % 0x10_0000, c / 0x200_0000_0000 % 4) < 0x10_0000
    ensures PackLoadConst(OP_LOAD_CONST, b, c) ==
              Compose(OP_LOAD_CONST, Or(b % 0x10_0000, c / 0x200_0000_0000 % 4),
                      c / 0x20_0000 % 0x10_0000, c / 0x8000 % 0x40, c % 0x8000)
  {
    PackLoadConstValue(OP_LOAD_CONST, b, c);
    OrFits(b % 0x10_0000, c / 0x200_0000_0000 % 4, 0x10_0000);
    ConstantLowBits(c);
  }

  /** The constant's bits 40-0 as the decoder's C, E and D fields. */
  lemma ConstantLowBits(c: int)
    ensures c % 0x200_0000_0000 == (c / 0x20_0000 % 0x10_0000) * 0x20_0000 + (c / 0x8000 % 0x40) * 0x8000 + c % 0x8000
  {
    DivModMul(c, 0x20_0000, 0x10_0000);
    DivModMul(c, 0x8000, 0x40);
  }

  /**
   * LOAD_CONST: the decoded B is B's low 20 bits ored with the constant's
   * bits 42-41, the decoded C is the constant's bits 40-21 (not the
   * constant), and D is its bits 14-0.
   */
  lemma LoadConstDecode(b: int, c: int)
    ensures EncodeLine(LOAD_CONST, [b, c]).Ok?
    ensures Decode(EncodeLine(LOAD_CONST, [b, c]).value) ==
              Fields(OP_LOAD_CONST, Or(b % 0x10_0000, c / 0x200_0000_0000 % 4),
                     c / 0x20_0000 % 0x10_0000, c % 0x8000)
  {
    PackLoadConstCompose(b, c);
    DecodeAt(PackLoadConst(OP_LOAD_CONST, b, c), OP_LOAD_CONST, Or(b % 0x10_0000, c / 0x200_0000_0000 % 4),
                  c / 0x20_0000 % 0x10_0000, c / 0x8000 % 0x40, c % 0x8000);
  }

  /** Oring two bits into a 20-bit address only touches its two lowest bits. */
  lemma OrAddressLowBits(b: int, t: nat)
    requires t < 4
    ensures Or(b % 0x10_0000, t) == b / 4 % 0x4_0000 * 4 + Or(b % 4, t)
  {
    DivModMul(b, 4, 0x4_0000);
    OrLowAt(b / 4 % 0x4_0000, b % 4, t, 4);
  }

  /** Oring two bits into an address whose two lowest bits are clear adds them. */
  lemma OrIntoClearBits(b: int, t: nat)
    requires b % 4 == 0 && t < 4
    ensures Or(b % 0x10_0000, t) == b % 0x10_0000 + t
  {
    OrAddressLowBits(b, t);
    OrZero(t);
    DivModMul(b, 4, 0x4_0000);
  }

  /** LOAD_CONST keeps its address exactly when the constant's bits 42-41 are already set in B. */
  lemma LoadConstKeepsAddress(b: int, c: int)
    ensures EncodeLine(LOAD_CONST, [b, c]).Ok?
    ensures Decode(EncodeLine(LOAD_CONST, [b, c]).value).b == b % 0x10_0000 <==>
              Or(b % 4, c / 0x200_0000_0000 % 4) == b % 4
  {
    LoadConstDecode(b, c);
    OrAddressLowBits(b, c / 0x200_0000_0000 % 4);
    DivModMul(b, 4, 0x4_0000);
  }

  /** With B's two lowest bits clear, the constant's bits 42-41 are added to the decoded address. */
  lemma LoadConstCorruptsAddress(b: int, c: int)
    requires b % 4 == 0 && c / 0x200_0000_0000 % 4 != 0
    ensures EncodeLine(LOAD_CONST, [b, c]).Ok?
    ensures Decode(EncodeLine(LOAD_CONST, [b, c]).value).b == b % 0x10_0000 + c / 0x200_0000_0000 % 4
    ensures Decode(EncodeLine(LOAD_CONST, [b, c]).value).b != b % 0x10_0000
  {
    LoadConstDecode(b, c);
    OrIntoClearBits(b, c / 0x200_0000_0000 % 4);
  }

  /** A constant below 2^21 has nothing in bits 42-21. */
  lemma SmallConstantBits(c: int)
    requires 0 <= c < 0x20_0000
    ensures c / 0x200_0000_0000 % 4 == 0 && c / 0x20_0000 % 0x10_0000 == 0
  {
    ModSmall(c, 0x200_0000_0000);
    ModSmall(c, 0x20_0000);
  }

  /** A constant below 2^21 loads 0 into the unchanged address. */
  lemma SmallConstantLoadsZero(b: int, c: int)
    requires 0 <= c < 0x20_0000
    ensures EncodeLine(LOAD_CONST, [b, c]).Ok?
    ensures Decode(EncodeLine(LOAD_CONST, [b, c]).value) == Fields(OP_LOAD_CONST, b % 0x10_0000, 0, c % 0x8000)
  {
    LoadConstDecode(b, c);
    SmallConstantBits(c);
    OrZero(b % 0x10_0000);
  }

  /** Every accepted line's word decodes to its mnemonic's opcode. */
  lemma EncodedOpcode(command: string, args: seq<int>)
    ensures EncodeLine(command, args).Ok? ==> Decode(EncodeLine(command, args).value).a == OpcodeOf(command)
  {
    if EncodeLine(command, args).Ok? {
      if command == LOAD_CONST {
        assert args == [args[0], args[1]];
        LoadConstDecode(args[0], args[1]);
      } else if command == READ_MEM {
        assert args == [args[0], args[1], args[2]];
        ReadMemRoundTrip(args[0], args[1], args[2]);
      } else if command == WRITE_MEM {
        assert args == [args[0], args[1]];
        WriteMemDecode(args[0], args[1]);
      } else {
        assert args == [args[0], args[1]];
        AbsDecode(args[0], args[1]);
      }
    }
  }

  // ---------------------------------------------------------------------------
  // What the interpreter does with an assembled line

  /** LOAD_CONST of a constant below 2^21 into an address in memory stores 0 there, not the constant. */
  lemma SmallConstantStoresZero(mem: seq<int>, b: int, c: int)
    requires |mem| == MEMORY_SIZE && InRange(b) && 0 <= c < 0x20_0000
    ensures EncodeLine(LOAD_CONST, [b, c]).Ok?
    ensures Execute(mem, Decode(EncodeLine(LOAD_CONST, [b, c]).value)) == Some(mem[b := 0])
  {
    SmallConstantLoadsZero(b, c);
    ModSmall(b, 0x10_0000);
  }

  /**
   * WRITE_MEM B C with B in memory: the decoded C is 0, so the value
   * copied to memory[memory[B]] is memory[memory[0]], whatever C names.
   */
  lemma WriteMemCopiesFromCellZero(mem: seq<int>, b: int, c: int)
    requires |mem| == MEMORY_SIZE && InRange(b)
    requires InRange(mem[b]) && InRange(mem[0])
    ensures EncodeLine(WRITE_MEM, [b, c]).Ok?
    ensures Execute(mem, Decode(EncodeLine(WRITE_MEM, [b, c]).value)) == Some(mem[mem[b] := mem[mem[0]]])
  {
    WriteMemDecode(b, c);
    ModSmall(b, 0x10_0000);
  }
}

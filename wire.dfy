/**
 * The instruction word shared by the assembler and the interpreter, and the
 * binary instruction stream: each 64-bit instruction word travels as
 * 8 bytes, most significant first (Python's `int.to_bytes(8, 'big')` on the
 * assembler side and `int.from_bytes(chunk, 'big')` on the interpreter side).
 */
module Wire {
  import opened Bits

  type Byte = b: nat | b < 256

  /** An unsigned 64-bit instruction word. */
  type Word = w: nat | w < 0x1_0000_0000_0000_0000

  const WORD_BYTES: nat := 8

  /** Values of the 3-bit opcode field A (bits 63-61). */
  const OP_ABS: nat := 0
  const OP_WRITE_MEM: nat := 1
  const OP_LOAD_CONST: nat := 5
  const OP_READ_MEM: nat := 6

  /** `w.to_bytes(8, byteorder='big')` */
  function WordToBytes(w: Word): (bs: seq<Byte>)
    ensures |bs| == WORD_BYTES
  {
    ToDigits(w, 256, WORD_BYTES)
  }

  /** `int.from_bytes(bs, byteorder='big')` for an 8-byte chunk. */
  function BytesToWord(bs: seq<Byte>): (w: Word)
    requires |bs| == WORD_BYTES
  {
    BytesFitWord(bs);
    FromDigits(bs, 256)
  }

  lemma BytesFitWord(bs: seq<Byte>)
    requires |bs| == WORD_BYTES
    ensures FromDigits(bs, 256) < 0x1_0000_0000_0000_0000
  {
    FromDigitsBound(bs, 256);
    WordPowers();
  }

  /** Writing a word and reading it back gives the word. */
  lemma WordBytesRoundTrip(w: Word)
    ensures BytesToWord(WordToBytes(w)) == w
  {
    WordPowers();
    DigitsRoundTrip(w, 256, WORD_BYTES);
  }

  /** Reading 8 bytes and writing the word back gives the same bytes. */
  lemma BytesWordRoundTrip(bs: seq<Byte>)
    requires |bs| == WORD_BYTES
    ensures WordToBytes(BytesToWord(bs)) == bs
  {
    ToFromDigits(bs, 256);
  }

  /** Byte i of a word's wire form is its digit of weight 256^(7 - i): big-endian. */
  lemma WordToBytesBigEndian(w: Word, i: nat)
    requires i < WORD_BYTES
    ensures WordToBytes(w)[i] == w / Power(256, 7 - i) % 256
  {
    ToDigitsAt(w, 256, WORD_BYTES, i);
  }

  /** Reading 8 bytes, byte i contributes the word's digit of weight 256^(7 - i). */
  lemma BytesToWordBigEndian(bs: seq<Byte>, i: nat)
    requires |bs| == WORD_BYTES && i < WORD_BYTES
    ensures BytesToWord(bs) / Power(256, 7 - i) % 256 == bs[i]
  {
    BytesWordRoundTrip(bs);
    WordToBytesBigEndian(BytesToWord(bs), i);
  }

  /**
   * The words of a byte stream whose length is a multiple of 8, one per
   * 8-byte chunk, in stream order.
   */
  function Deserialize(bs: seq<Byte>): (ws: seq<Word>)
    requires |bs| % WORD_BYTES == 0
    ensures |ws| == |bs| / WORD_BYTES
  {
    seq(|bs| / WORD_BYTES, i requires 0 <= i < |bs| / WORD_BYTES =>
      BytesToWord(bs[WORD_BYTES * i .. WORD_BYTES * i + WORD_BYTES]))
  }

  /** Chunk j of a stream is the byte form of the stream's word j. */
  lemma DeserializeChunks(bs: seq<Byte>)
    requires |bs| % WORD_BYTES == 0
    ensures forall j :: 0 <= j < |bs| / WORD_BYTES ==>
              bs[WORD_BYTES * j .. WORD_BYTES * j + WORD_BYTES] == WordToBytes(Deserialize(bs)[j])
  {
    forall j | 0 <= j < |bs| / WORD_BYTES
      ensures bs[WORD_BYTES * j .. WORD_BYTES * j + WORD_BYTES] == WordToBytes(Deserialize(bs)[j])
    {
      BytesWordRoundTrip(bs[WORD_BYTES * j .. WORD_BYTES * j + WORD_BYTES]);
    }
  }

  /** Appending the bytes of one word appends that word to the stream's words. */
  lemma DeserializeAppend(bs: seq<Byte>, w: Word)
    requires |bs| % WORD_BYTES == 0
    ensures Deserialize(bs + WordToBytes(w)) == Deserialize(bs) + [w]
  {
    var n := |bs| / WORD_BYTES;
    var all := bs + WordToBytes(w);
    DivModUnique(|all|, WORD_BYTES, n + 1, 0);
    forall i | 0 <= i < n
      ensures Deserialize(all)[i] == Deserialize(bs)[i]
    {
      WordOfAppend(bs, WordToBytes(w), i);
    }
    WordOfAppend(bs, WordToBytes(w), n);
    WordBytesRoundTrip(w);
  }

  /** Word i of a stream extended by one chunk is word i of the stream, or the new chunk's word. */
  lemma WordOfAppend(bs: seq<Byte>, tail: seq<Byte>, i: nat)
    requires |bs| % WORD_BYTES == 0 && |tail| == WORD_BYTES
    requires i <= |bs| / WORD_BYTES
    ensures |(bs + tail)| % WORD_BYTES == 0
    ensures i < |(bs + tail)| / WORD_BYTES
    ensures Deserialize(bs + tail)[i] ==
              if i < |bs| / WORD_BYTES then Deserialize(bs)[i] else BytesToWord(tail)
  {
    ChunkOfAppend(bs, tail, WORD_BYTES * i);
    assert tail[..] == tail;
  }

  /** An 8-byte chunk that starts inside the first part of a concatenation. */
  lemma ChunkOfAppend(bs: seq<Byte>, tail: seq<Byte>, start: nat)
    requires |bs| % WORD_BYTES == 0 && |tail| == WORD_BYTES
    requires start % WORD_BYTES == 0 && start <= |bs|
    ensures (bs + tail)[start .. start + WORD_BYTES] ==
              if start < |bs| then bs[start .. start + WORD_BYTES] else tail
  {
  }
}

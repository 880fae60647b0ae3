/** The hand-written DEFLATE bit writer and its fixed-Huffman symbols and matches. */
module DeflateWriter {
  import opened Bytes
  import opened Bits

  class BitWriter {
    var output: bytes
    var bits: nat
    var bitCount: nat

    ghost predicate Valid()
      reads this
    {
      bitCount < 8 && bits < Pow2(bitCount)
    }

    /** Everything written so far, in stream order. */
    ghost function Written(): seq<bool>
      reads this
    {
      StreamBits(output) + LowBits(bits, bitCount)
    }

    constructor ()
      ensures Valid() && Written() == []
    {
      output, bits, bitCount := [], 0, 0;
    }

    /** Appends the low `count` bits of `value`. */
    method Write(value: nat, count: nat)
      requires Valid()
      modifies this
      ensures Valid() && Written() == old(Written()) + LowBits(value, count)
    {
      AndMask(value, count);
      LowBitsOfLow(value, count);
      OrAppends(bits, bitCount, Low(value, count), count);
      bits := Or(bits, ShiftLeft(And(value, Pow2(count) - 1), bitCount));
      bitCount := bitCount + count;
      assert Written() == old(Written()) + LowBits(value, count);
      while bitCount >= 8
        invariant bits < Pow2(bitCount)
        invariant Written() == old(Written()) + LowBits(value, count)
      {
        EmitByte();
      }
    }

    /** Moves the low eight pending bits to the output. */
    method EmitByte()
      requires bitCount >= 8 && bits < Pow2(bitCount)
      modifies this
      ensures bitCount == old(bitCount) - 8 && bits < Pow2(bitCount)
      ensures Written() == old(Written())
    {
      ByteEmitted(output, bits, bitCount);
      output := output + [And(bits, 0xFF)];
      bits := ShiftRight(bits, 8);
      bitCount := bitCount - 8;
    }

    /** The stream padded with zero bits to a whole byte. */
    method Finish() returns (r: bytes, ghost pad: nat)
      requires Valid()
      modifies this
      ensures pad < 8 && StreamBits(r) == old(Written()) + LowBits(0, pad)
    {
      pad := 0;
      if bitCount != 0 {
        assert Pow2(4) == 16 && Pow2(8) == 0x100;
        Pow2Grows(bitCount, 8);
        AndMask(bits, 8);
        LowOfSmall(bits, 8);
        pad := 8 - bitCount;
        LowBitsSplit(bits, bitCount, pad);
        ShiftRightSmall(bits, bitCount, bitCount);
        StreamBitsNext(output, bits);
        output := output + [And(bits, 0xFF)];
      }
      r := output;
      assert StreamBits(r) == old(Written()) + LowBits(0, pad);
    }
  }

  lemma ByteMask(v: nat)
    ensures And(v, 0xFF) == Low(v, 8) < 0x100
  {
    assert Pow2(4) == 16 && Pow2(8) == 0x100;
    AndMask(v, 8);
  }

  lemma ByteEmitted(output: bytes, bits: nat, n: nat)
    requires n >= 8 && bits < Pow2(n)
    ensures And(bits, 0xFF) < 0x100 && ShiftRight(bits, 8) < Pow2(n - 8)
    ensures StreamBits(output + [And(bits, 0xFF)]) + LowBits(ShiftRight(bits, 8), n - 8)
         == StreamBits(output) + LowBits(bits, n)
  {
    ByteMask(bits);
    LowBitsOfLow(bits, 8);
    ShiftRightSmall(bits, 8, n);
    ByteMoves(output, bits, n, And(bits, 0xFF));
  }

  lemma ByteMoves(output: bytes, bits: nat, n: nat, x: byte)
    requires n >= 8 && LowBits(x, 8) == LowBits(bits, 8)
    ensures StreamBits(output + [x]) + LowBits(ShiftRight(bits, 8), n - 8) == StreamBits(output) + LowBits(bits, n)
  {
    var b := LowBits(ShiftRight(bits, 8), n - 8);
    LowBitsSplit(bits, 8, n - 8);
    StreamBitsNext(output, x);
    assert (StreamBits(output) + LowBits(x, 8)) + b == StreamBits(output) + (LowBits(x, 8) + b);
  }

  // ---------------------------------------------------------------- symbols

  method ReverseBits(value: nat, count: nat) returns (reversed: nat)
    ensures LowBits(reversed, count) == HighFirst(value, count)
  {
    var v := value;
    reversed := 0;
    for i := 0 to count
      invariant v == ShiftRight(value, i)
      invariant LowBits(reversed, i) == HighFirst(value, i)
    {
      HighFirstNext(value, i);
      AndOne(v);
      OrOne(reversed, v % 2);
      ShiftRightNext(value, i);
      reversed := Or(ShiftLeft(reversed, 1), And(v, 1));
      v := ShiftRight(v, 1);
    }
  }

  lemma {:induction false} HighFirstNext(v: nat, n: nat)
    ensures HighFirst(v, n + 1) == [ShiftRight(v, n) % 2 == 1] + HighFirst(v, n)
  {
    if n > 0 { HighFirstNext(v / 2, n - 1); }
  }

  lemma {:induction false} ShiftRightNext(v: nat, n: nat)
    ensures ShiftRight(ShiftRight(v, n), 1) == ShiftRight(v, n + 1)
  {
    if n > 0 { ShiftRightNext(v / 2, n - 1); }
  }

  lemma AndOne(v: nat)
    ensures And(v, 1) == v % 2
  {
    AndMask(v, 1);
    assert Pow2(1) - 1 == 1;
  }

  lemma OrOne(a: nat, b: nat)
    requires b < 2
    ensures Or(ShiftLeft(a, 1), b) == 2 * a + b
  {
    var x := ShiftLeft(a, 1);
    assert x == 2 * a && x % 2 == 0 && x / 2 == a && b / 2 == 0 && b % 2 == b;
    OrRightZero(a);
  }

  lemma {:induction false} OrRightZero(a: nat)
    ensures Or(a, 0) == a
  {
    if a > 0 { OrRightZero(a / 2); }
  }

  /** Code word and length of a fixed-Huffman symbol. */
  function FixedCode(symbol: nat): (nat, nat)
    requires symbol <= 287
  {
    if symbol <= 143 then (0x30 + symbol, 8)
    else if symbol <= 255 then (0x190 + symbol - 144, 9)
    else if symbol <= 279 then (symbol - 256, 7)
    else (0xC0 + symbol - 280, 8)
  }

  function SymbolBits(symbol: nat): seq<bool>
    requires symbol <= 287
  {
    HighFirst(FixedCode(symbol).0, FixedCode(symbol).1)
  }

  method WriteFixedSymbol(writer: BitWriter, symbol: nat) returns (ok: bool)
    requires writer.Valid()
    modifies writer
    ensures writer.Valid() && (ok <==> symbol <= 287)
    ensures writer.Written() == old(writer.Written()) + (if ok then SymbolBits(symbol) else [])
  {
    var code, bits;
    if 0 <= symbol <= 143 {
      code, bits := 0x30 + symbol, 8;
    } else if symbol <= 255 {
      code, bits := 0x190 + symbol - 144, 9;
    } else if symbol <= 279 {
      code, bits := symbol - 256, 7;
    } else if symbol <= 287 {
      code, bits := 0xC0 + symbol - 280, 8;
    } else {
      return false;
    }
    var reversed := ReverseBits(code, bits);
    writer.Write(reversed, bits);
    return true;
  }
}

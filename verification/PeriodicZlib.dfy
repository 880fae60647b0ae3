/** The periodic zlib encoder, and the proof that inflating its output gives the input back. */
module PeriodicZlib {
  import opened Bytes
  import opened Wrappers
  import opened Bits
  import opened Inflate
  import opened DeflateWriter
  import opened FixedMatch

  // ---------------------------------------------------------------- token streams

  /** A token with the bits that were written for it. */
  datatype Written = Written(token: Token, code: seq<bool>)

  ghost predicate Faithful(w: Written) {
    !w.token.EndOfBlock? && forall rest :: DecodeToken(w.code + rest) == Some((w.token, rest))
  }

  ghost function Code(ws: seq<Written>): seq<bool> {
    if ws == [] then [] else Code(ws[..|ws| - 1]) + ws[|ws| - 1].code
  }

  ghost function ApplyAll(ws: seq<Written>): Option<bytes> {
    if ws == [] then Some([])
    else
      match ApplyAll(ws[..|ws| - 1])
      case None => None
      case Some(out) => Apply(out, ws[|ws| - 1].token)
  }

  /** Decoding a faithful stream arrives behind any prefix of it with what the prefix builds. */
  lemma {:induction false} InflateFaithful(ws: seq<Written>, rest: seq<bool>)
    requires forall w :: w in ws ==> Faithful(w)
    requires ApplyAll(ws).Some?
    ensures InflateTokens(Code(ws) + rest, []) == InflateTokens(rest, ApplyAll(ws).value)
  {
    if ws == [] {
      assert Code(ws) + rest == rest;
    } else {
      var front, last := ws[..|ws| - 1], ws[|ws| - 1];
      assert last in ws && forall w :: w in front ==> w in ws;
      assert Code(ws) + rest == Code(front) + (last.code + rest);
      InflateFaithful(front, last.code + rest);
      assert DecodeToken(last.code + rest) == Some((last.token, rest));
    }
  }

  lemma FaithfulNext(ws: seq<Written>, w: Written, out: bytes)
    requires ApplyAll(ws) == Some(out)
    ensures ApplyAll(ws + [w]) == Apply(out, w.token)
    ensures Code(ws + [w]) == Code(ws) + w.code
  {
    assert (ws + [w])[..|ws|] == ws;
  }

  // ---------------------------------------------------------------- the encoder

  ghost predicate Periodic(data: bytes, period: nat) {
    forall i | period <= i < |data| :: data[i] == data[i - period]
  }

  /** Copying from one period back, overlapping or not, continues periodic data. */
  lemma {:induction false} CopyContinues(data: bytes, period: nat, offset: nat, length: nat)
    requires 0 < period <= offset && offset + length <= |data| && Periodic(data, period)
    ensures Copy(data[..offset], length, period) == data[..offset + length]
    decreases length
  {
    if length > 0 {
      assert data[offset] == data[offset - period];
      assert data[..offset] + [data[offset]] == data[..offset + 1];
      CopyContinues(data, period, offset + 1, length - 1);
    }
  }

  /** The stream so far: a block header and faithful tokens that rebuild the first `n` bytes. */
  ghost predicate Encodes(bits: seq<bool>, ws: seq<Written>, data: bytes, n: nat) {
    && n <= |data|
    && bits == [true, true, false] + Code(ws)
    && (forall w :: w in ws ==> Faithful(w))
    && ApplyAll(ws) == Some(data[..n])
  }

  method WriteByte(writer: BitWriter, ghost ws: seq<Written>, data: bytes, n: nat) returns (ghost ws': seq<Written>)
    requires writer.Valid() && n < |data| && Encodes(writer.Written(), ws, data, n)
    modifies writer
    ensures writer.Valid() && Encodes(writer.Written(), ws', data, n + 1)
  {
    ghost var w := Written(Literal(data[n]), SymbolBits(data[n]));
    forall rest ensures DecodeToken(w.code + rest) == Some((w.token, rest)) {
      SymbolDecodes(data[n], rest);
    }
    FaithfulNext(ws, w, data[..n]);
    assert data[..n] + [data[n]] == data[..n + 1];
    var _ := WriteFixedSymbol(writer, data[n]);
    ws' := ws + [w];
  }

  method WriteRun(writer: BitWriter, ghost ws: seq<Written>, data: bytes, n: nat, length: nat, period: nat)
    returns (ghost ws': seq<Written>)
    requires writer.Valid() && Encodes(writer.Written(), ws, data, n)
    requires 3 <= length <= 258 && n + length <= |data|
    requires 0 < period <= n && period <= 32768 && Periodic(data, period)
    modifies writer
    ensures writer.Valid() && Encodes(writer.Written(), ws', data, n + length)
  {
    ghost var before := writer.Written();
    var ok;
    ghost var code;
    ok, code := WriteFixedMatch(writer, length, period);
    ghost var w := Written(Match(length, period), code);
    FaithfulNext(ws, w, data[..n]);
    CopyContinues(data, period, n, length);
    assert writer.Written() == before + w.code;
    ws' := ws + [w];
  }

  /** Python's slice comparison, which for a valid period says the data repeats with it. */
  predicate Repeats(data: bytes, period: nat)
    requires period <= |data|
  {
    data[period..] == data[..|data| - period]
  }

  lemma RepeatsIsPeriodic(data: bytes, period: nat)
    requires period <= |data|
    ensures Repeats(data, period) <==> Periodic(data, period)
  {
    var tail, head := data[period..], data[..|data| - period];
    if Periodic(data, period) {
      forall k | 0 <= k < |tail| ensures tail[k] == head[k] {
        assert data[k + period] == data[k + period - period];
      }
    }
    if Repeats(data, period) {
      forall i | period <= i < |data| ensures data[i] == data[i - period] {
        assert tail[i - period] == head[i - period];
      }
    }
  }

  method WriteLiterals(writer: BitWriter, ghost ws: seq<Written>, data: bytes, period: nat)
    returns (ghost ws': seq<Written>)
    requires writer.Valid() && period <= |data| && Encodes(writer.Written(), ws, data, 0)
    modifies writer
    ensures writer.Valid() && Encodes(writer.Written(), ws', data, period)
  {
    ws' := ws;
    for offset := 0 to period
      invariant writer.Valid() && Encodes(writer.Written(), ws', data, offset)
    {
      ws' := WriteByte(writer, ws', data, offset);
    }
  }

  method WriteRepetitions(writer: BitWriter, ghost ws: seq<Written>, data: bytes, period: nat)
    returns (ghost ws': seq<Written>)
    requires writer.Valid() && Encodes(writer.Written(), ws, data, period)
    requires 0 < period <= |data| && period <= 32768 && Periodic(data, period)
    modifies writer
    ensures writer.Valid() && Encodes(writer.Written(), ws', data, |data|)
  {
    ws' := ws;
    var offset := period;
    while offset < |data|
      invariant period <= offset <= |data|
      invariant writer.Valid() && Encodes(writer.Written(), ws', data, offset)
    {
      var matchLength := if |data| - offset < 258 then |data| - offset else 258;
      if matchLength >= 3 {
        ws' := WriteRun(writer, ws', data, offset, matchLength, period);
        offset := offset + matchLength;
      } else {
        ws' := WriteByte(writer, ws', data, offset);
        offset := offset + 1;
      }
    }
  }

  /** Whatever follows the stream, the decoder gets the data out of it and stops `pad` bits before its end. */
  ghost predicate Inflates(stream: bytes, data: bytes, pad: nat) {
    forall more: seq<bool> :: InflateStream(StreamBits(stream) + more) == Some((data, LowBits(0, pad) + more))
  }

  /** The stream of one block: inflating it, followed by anything, gives the data and leaves the
      padding of less than a byte and what follows. */
  method WriteBlock(data: bytes, period: nat) returns (stream: bytes)
    requires 0 < period <= |data| && period <= 32768 && Periodic(data, period)
    ensures exists pad: nat | pad < 8 :: Inflates(stream, data, pad)
  {
    var writer := new BitWriter();
    writer.Write(1, 1);
    writer.Write(1, 2);
    ghost var ws: seq<Written> := [];
    HeaderBits();
    assert Encodes(writer.Written(), ws, data, 0);
    ws := WriteLiterals(writer, ws, data, period);
    ws := WriteRepetitions(writer, ws, data, period);
    assert data[..|data|] == data;
    var _ := WriteFixedSymbol(writer, 256);
    ghost var pad;
    stream, pad := writer.Finish();
    BlockThenMore(ws, data, StreamBits(stream), pad);
    assert Inflates(stream, data, pad);
  }

  lemma BlockThenMore(ws: seq<Written>, data: bytes, bits: seq<bool>, pad: nat)
    requires (forall w :: w in ws ==> Faithful(w)) && ApplyAll(ws) == Some(data)
    requires bits == [true, true, false] + Code(ws) + SymbolBits(256) + LowBits(0, pad)
    ensures forall more: seq<bool> :: InflateStream(bits + more) == Some((data, LowBits(0, pad) + more))
  {
    forall more: seq<bool> ensures InflateStream(bits + more) == Some((data, LowBits(0, pad) + more)) {
      BlockInflates(ws, data, LowBits(0, pad) + more);
      assert bits + more == [true, true, false] + Code(ws) + SymbolBits(256) + (LowBits(0, pad) + more);
    }
  }

  lemma HeaderBits()
    ensures LowBits(1, 1) + LowBits(1, 2) == [true, true, false]
  {
    assert LowBits(1, 1) == [true] + LowBits(0, 0);
    assert LowBits(1, 2) == [true] + LowBits(0, 1);
    assert LowBits(0, 1) == [false] + LowBits(0, 0);
  }

  lemma BlockInflates(ws: seq<Written>, data: bytes, rest: seq<bool>)
    requires (forall w :: w in ws ==> Faithful(w)) && ApplyAll(ws) == Some(data)
    ensures InflateStream([true, true, false] + Code(ws) + SymbolBits(256) + rest) == Some((data, rest))
  {
    var s := [true, true, false] + Code(ws) + SymbolBits(256) + rest;
    assert s[3..] == Code(ws) + (SymbolBits(256) + rest);
    assert s[1..3] == [true, false];
    assert LowValue([true, false]) == 1 by { assert [true, false][1..] == [false]; }
    InflateFaithful(ws, SymbolBits(256) + rest);
    SymbolDecodes(256, rest);
  }

  // ---------------------------------------------------------------- checksum and trailer

  method ChecksumOf(data: bytes) returns (a: nat, b: nat)
    ensures a == (1 + Sum(data)) % ADLER_BASE
    ensures b == (|data| + WeightedSum(data)) % ADLER_BASE
  {
    a, b := 1, 0;
    for i := 0 to |data|
      invariant a == (1 + Sum(data[..i])) % ADLER_BASE
      invariant b == (i + WeightedSum(data[..i])) % ADLER_BASE
    {
      assert data[..i + 1][..i] == data[..i];
      ModAdd(1 + Sum(data[..i]), data[i]);
      a := (a + data[i]) % ADLER_BASE;
      ModAdd(i + WeightedSum(data[..i]), a);
      ModAdd2(i + WeightedSum(data[..i]), 1 + Sum(data[..i + 1]));
      b := (b + a) % ADLER_BASE;
    }
    assert data[..|data|] == data;
  }

  lemma ModAdd(x: nat, y: nat)
    ensures (x % ADLER_BASE + y) % ADLER_BASE == (x + y) % ADLER_BASE
  {
  }

  lemma ModAdd2(x: nat, y: nat)
    ensures (x + y % ADLER_BASE) % ADLER_BASE == (x + y) % ADLER_BASE
  {
  }

  lemma {:induction false} ShiftLeftMultiplies(b: nat, n: nat)
    ensures ShiftLeft(b, n) == b * Pow2(n)
  {
    if n > 0 {
      ShiftLeftMultiplies(b, n - 1);
      assert 2 * (b * Pow2(n - 1)) == b * (2 * Pow2(n - 1));
    }
  }

  lemma Pow16()
    ensures Pow2(16) == 0x1_0000
  {
    assert Pow2(4) == 16 && Pow2(8) == 0x100 && Pow2(12) == 0x1000;
  }

  lemma {:induction false} OrSymmetric(a: nat, b: nat)
    ensures Or(a, b) == Or(b, a)
    decreases a + b
  {
    if a + b > 0 { OrSymmetric(a / 2, b / 2); }
  }

  lemma PackedChecksum(a: nat, b: nat)
    requires a < 0x1_0000 && b < 0x1_0000
    ensures Or(ShiftLeft(b, 16), a) == b * 0x1_0000 + a < 0x1_0000_0000
  {
    Pow16();
    OrAppends(a, 16, b, 16);
    OrSymmetric(a, ShiftLeft(b, 16));
    ShiftLeftMultiplies(b, 16);
  }

  method PackChecksum(a: nat, b: nat) returns (trailer: bytes)
    requires a < 0x1_0000 && b < 0x1_0000
    ensures b * 0x1_0000 + a < 0x1_0000_0000 && trailer == EncodeBigEndian(b * 0x1_0000 + a)
  {
    PackedChecksum(a, b);
    trailer := EncodeBigEndian(Or(ShiftLeft(b, 16), a));
  }

  lemma AdlerOf(data: bytes, a: nat, b: nat)
    requires a == (1 + Sum(data)) % ADLER_BASE && b == (|data| + WeightedSum(data)) % ADLER_BASE
    ensures a < 0x1_0000 && b < 0x1_0000 && Adler32(data) == b * 0x1_0000 + a
  {
  }

  method Trailer(data: bytes) returns (trailer: bytes)
    ensures trailer == EncodeBigEndian(Adler32(data))
  {
    var a, b := ChecksumOf(data);
    AdlerOf(data, a, b);
    trailer := PackChecksum(a, b);
  }

  // ---------------------------------------------------------------- the whole stream

  predicate Accepts(data: bytes, period: int) {
    && data != [] && 0 < period && period <= |data| && period <= 32768
    && Repeats(data, period)
  }

  /** Refuses exactly the inputs whose period does not address a window or does not repeat; for every
      other input the zlib stream decodes to the data, checksum included. */
  method DeterministicPeriodicZlib(data: bytes, period: int) returns (r: Option<bytes>)
    ensures r.Some? <==> Accepts(data, period)
    ensures r.Some? ==> ZlibDecode(r.value) == Some(data)
  {
    if !Accepts(data, period) {
      return None;
    }
    RepeatsIsPeriodic(data, period);
    var stream := WriteBlock(data, period);
    ghost var pad: nat :| pad < 8 && Inflates(stream, data, pad);
    var trailer := Trailer(data);
    BigEndianRoundTrip(Adler32(data));
    var whole := Assemble(stream, pad, trailer, data);
    return Some(whole);
  }

  method Assemble(stream: bytes, ghost pad: nat, trailer: bytes, ghost data: bytes) returns (whole: bytes)
    requires pad < 8 && |trailer| == 4 && DecodeBigEndian(trailer) == Adler32(data)
    requires InflateStream(StreamBits(stream) + StreamBits(trailer)) == Some((data, LowBits(0, pad) + StreamBits(trailer)))
    ensures ZlibDecode(whole) == Some(data)
  {
    whole := [0x78, 0x01] + stream + trailer;
    StreamDecodes(stream, pad, trailer, data);
  }

  lemma StreamDecodes(stream: bytes, pad: nat, trailer: bytes, data: bytes)
    requires pad < 8 && |trailer| == 4 && DecodeBigEndian(trailer) == Adler32(data)
    requires InflateStream(StreamBits(stream) + StreamBits(trailer)) == Some((data, LowBits(0, pad) + StreamBits(trailer)))
    ensures ZlibDecode([0x78, 0x01] + stream + trailer) == Some(data)
  {
    var body := stream + trailer;
    assert [0x78, 0x01] + stream + trailer == [0x78, 0x01] + body;
    HeaderIsValid();
    Strips([0x78, 0x01] + body, 0x78, 0x01, body);
    StreamBitsConcat(stream, trailer);
    assert body[|body| - 4..] == trailer;
  }

  lemma HeaderIsValid()
    ensures IsZlibHeader(0x78, 0x01)
  {
  }

  lemma Strips(b: bytes, cmf: byte, flg: byte, body: bytes)
    requires IsZlibHeader(cmf, flg) && b == [cmf, flg] + body
    ensures ZlibDecode(b) == DecodeBody(body)
  {
    assert b[2..] == body && b[0] == cmf && b[1] == flg;
  }
}

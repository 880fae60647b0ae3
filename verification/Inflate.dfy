/** A reference decoder: DEFLATE blocks with the fixed Huffman code (RFC 1951, sections 3.2.3, 3.2.5
    and 3.2.6) inside a zlib stream (RFC 1950, section 2.2). */
module Inflate {
  import opened Bytes
  import opened Wrappers
  import opened Bits

  /** `n` bits as a number, least significant first: everything but Huffman codes. */
  function ReadNumber(s: seq<bool>, n: nat): Option<(nat, seq<bool>)> {
    if |s| < n then None else Some((LowValue(s[..n]), s[n..]))
  }

  /** The fixed literal/length code: code words of 7, 8 or 9 bits, most significant bit first. */
  function DecodeSymbol(s: seq<bool>): (r: Option<(nat, seq<bool>)>)
    ensures r.Some? ==> |r.value.1| < |s|
  {
    if |s| < 7 then None
    else
      var seven := HighValue(s[..7]);
      if seven <= 23 then Some((256 + seven, s[7..]))
      else if |s| < 8 then None
      else
        var eight := HighValue(s[..8]);
        if 48 <= eight <= 191 then Some((eight - 48, s[8..]))
        else if 192 <= eight <= 199 then Some((280 + (eight - 192), s[8..]))
        else if |s| < 9 then None
        else
          var nine := HighValue(s[..9]);
          if 400 <= nine <= 511 then Some((144 + (nine - 400), s[9..])) else None
  }

  /** Length code `257 + i`: the smallest length and the number of extra bits. */
  function LengthCode(i: nat): (nat, nat)
    requires i < 29
  {
    if i < 8 then (3 + i, 0)
    else if i == 28 then (258, 0)
    else (3 + (4 + i % 4) * Pow2(i / 4 - 1), i / 4 - 1)
  }

  /** Distance code `j`: the smallest distance and the number of extra bits. */
  function DistanceCode(j: nat): (nat, nat)
    requires j < 30
  {
    if j < 2 then (1 + j, 0)
    else (1 + (if j % 2 == 0 then 2 else 3) * Pow2(j / 2 - 1), j / 2 - 1)
  }

  datatype Token = Literal(value: byte) | Match(length: nat, distance: nat) | EndOfBlock

  function DecodeDistance(s: seq<bool>): Option<(nat, seq<bool>)> {
    if |s| < 5 then None
    else
      var j := HighValue(s[..5]);
      if j >= 30 then None
      else
        match ReadNumber(s[5..], DistanceCode(j).1)
        case None => None
        case Some((extra, rest)) => Some((DistanceCode(j).0 + extra, rest))
  }

  function DecodeMatch(i: nat, s: seq<bool>): Option<(Token, seq<bool>)>
    requires i < 29
  {
    match ReadNumber(s, LengthCode(i).1)
    case None => None
    case Some((extra, afterLength)) =>
      match DecodeDistance(afterLength)
      case None => None
      case Some((distance, rest)) => Some((Match(LengthCode(i).0 + extra, distance), rest))
  }

  function DecodeToken(s: seq<bool>): (r: Option<(Token, seq<bool>)>)
    ensures r.Some? ==> |r.value.1| < |s|
  {
    match DecodeSymbol(s)
    case None => None
    case Some((symbol, rest)) =>
      if symbol < 256 then Some((Literal(symbol), rest))
      else if symbol == 256 then Some((EndOfBlock, rest))
      else if symbol < 286 then DecodeMatch(symbol - 257, rest)
      else None
  }

  /** `length` bytes from `distance` back, one at a time, so that a copy may read what it wrote. */
  function Copy(out: bytes, length: nat, distance: nat): (r: bytes)
    requires 0 < distance <= |out|
    ensures |r| == |out| + length
    decreases length
  {
    if length == 0 then out else Copy(out + [out[|out| - distance]], length - 1, distance)
  }

  function Apply(out: bytes, t: Token): Option<bytes> {
    match t
    case Literal(value) => Some(out + [value])
    case Match(length, distance) =>
      if 0 < distance <= |out| && distance <= 32768 then Some(Copy(out, length, distance)) else None
    case EndOfBlock => None
  }

  /** The tokens up to the end of the block, applied in order; what follows the block is returned. */
  function InflateTokens(s: seq<bool>, out: bytes): Option<(bytes, seq<bool>)>
    decreases |s|
  {
    match DecodeToken(s)
    case None => None
    case Some((t, rest)) =>
      if t.EndOfBlock? then Some((out, rest))
      else
        match Apply(out, t)
        case None => None
        case Some(out') => InflateTokens(rest, out')
  }

  /** One final block with the fixed code. */
  function InflateStream(s: seq<bool>): Option<(bytes, seq<bool>)> {
    if |s| < 3 || !s[0] || LowValue(s[1..3]) != 1 then None else InflateTokens(s[3..], [])
  }

  // ---------------------------------------------------------------- Adler-32

  const ADLER_BASE := 65521

  function Sum(data: bytes): nat {
    if data == [] then 0 else Sum(data[..|data| - 1]) + data[|data| - 1]
  }

  /** Each byte counted once for every position from its own to the end. */
  function WeightedSum(data: bytes): nat {
    if data == [] then 0 else WeightedSum(data[..|data| - 1]) + Sum(data)
  }

  function Adler32(data: bytes): nat {
    ((|data| + WeightedSum(data)) % ADLER_BASE) * 0x1_0000 + (1 + Sum(data)) % ADLER_BASE
  }

  /** The two header bytes: deflate, no preset dictionary, and a multiple of 31 together. */
  predicate IsZlibHeader(cmf: byte, flg: byte) {
    cmf % 16 == 8 && (cmf as int * 256 + flg) % 31 == 0 && flg / 32 % 2 == 0
  }

  /** One block, padding to a byte, and the checksum of what came out as the last four bytes. */
  function DecodeBody(b: bytes): Option<bytes> {
    match InflateStream(StreamBits(b))
    case None => None
    case Some((data, rest)) =>
      if |b| < 4 || |rest| / 8 != 4 || DecodeBigEndian(b[|b| - 4..]) != Adler32(data) then None else Some(data)
  }

  /** A whole zlib stream. */
  function ZlibDecode(b: bytes): Option<bytes> {
    if |b| < 2 || !IsZlibHeader(b[0], b[1]) then None else DecodeBody(b[2..])
  }
}

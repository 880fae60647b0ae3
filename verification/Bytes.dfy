/** Bytes, fixed-width unsigned integers and their little-endian and big-endian encodings. */
module Bytes {

  type byte = x: int | 0 <= x < 0x100
  type u16 = x: int | 0 <= x < 0x1_0000
  type u32 = x: int | 0 <= x < 0x1_0000_0000
  type u64 = x: int | 0 <= x < 0x1_0000_0000_0000_0000
  type bytes = seq<byte>

  function EncodeU16(x: u16): (b: bytes)
    ensures |b| == 2
  {
    [x % 0x100, x / 0x100]
  }

  function DecodeU16(b: bytes): (x: u16)
    requires |b| == 2
  {
    var low: int, high: int := b[0], b[1];
    low + 0x100 * high
  }

  function EncodeU32(x: u32): (b: bytes)
    ensures |b| == 4
  {
    EncodeU16(x % 0x1_0000) + EncodeU16(x / 0x1_0000)
  }

  function DecodeU32(b: bytes): (x: u32)
    requires |b| == 4
  {
    DecodeU16(b[..2]) + 0x1_0000 * DecodeU16(b[2..])
  }

  lemma U16RoundTrip(x: u16)
    ensures DecodeU16(EncodeU16(x)) == x
  {
  }

  lemma U32RoundTrip(x: u32)
    ensures DecodeU32(EncodeU32(x)) == x
  {
    var b := EncodeU32(x);
    assert b[..2] == EncodeU16(x % 0x1_0000) && b[2..] == EncodeU16(x / 0x1_0000);
  }

  function Zeros(n: nat): (b: bytes)
    ensures |b| == n
    ensures forall i | 0 <= i < n :: b[i] == 0
  {
    seq(n, _ => 0)
  }

  lemma SliceOfSlice(data: bytes, start: nat, end: nat, a: nat, b: nat)
    requires start <= end <= |data| && a <= b <= end - start
    ensures data[start..end][a..b] == data[start + a..start + b]
  {
    var s := data[start..end];
    assert forall i | 0 <= i < b - a :: s[a..b][i] == s[a + i] == data[start + a + i];
  }

  // ---------------------------------------------------------------- big-endian numbers

  /** The number whose digits in base 256 these are, the highest first. */
  function Value(b: bytes): nat {
    if b == [] then 0
    else
      var last: int := b[|b| - 1];
      0x100 * Value(b[..|b| - 1]) + last
  }

  /** The last `n` digits of a number in base 256. */
  function Digits(x: nat, n: nat): (b: bytes)
    ensures |b| == n
  {
    if n == 0 then [] else Digits(x / 0x100, n - 1) + [x % 0x100]
  }

  function Pow256(n: nat): nat { if n == 0 then 1 else 0x100 * Pow256(n - 1) }

  lemma {:induction false} DigitsRead(x: nat, n: nat)
    requires x < Pow256(n)
    ensures Value(Digits(x, n)) == x
    decreases n
  {
    if n > 0 {
      DigitsRead(x / 0x100, n - 1);
      assert Digits(x, n)[..n - 1] == Digits(x / 0x100, n - 1);
    }
  }

  /** Digits hold one number and nothing else. */
  lemma {:induction false} ValueDigits(b: bytes)
    ensures Value(b) < Pow256(|b|) && Digits(Value(b), |b|) == b
    decreases |b|
  {
    if b != [] {
      var front, last: int := b[..|b| - 1], b[|b| - 1];
      ValueDigits(front);
      LastDigit(Value(front), last);
      assert b == front + [last];
    }
  }

  lemma LastDigit(high: nat, low: int)
    requires 0 <= low < 0x100
    ensures (0x100 * high + low) / 0x100 == high && (0x100 * high + low) % 0x100 == low
  {
  }

  lemma FourDigits()
    ensures Pow256(4) == 0x1_0000_0000
  {
    assert Pow256(2) == 0x1_0000;
  }

  function DecodeBigEndian(b: bytes): u32
    requires |b| == 4
  {
    ValueDigits(b);
    FourDigits();
    Value(b)
  }

  function EncodeBigEndian(x: u32): (b: bytes)
    ensures |b| == 4
  {
    Digits(x, 4)
  }

  lemma BigEndianRoundTrip(x: u32)
    ensures DecodeBigEndian(EncodeBigEndian(x)) == x
  {
    FourDigits();
    DigitsRead(x, 4);
  }

  lemma BigEndianReads(b: bytes)
    requires |b| == 4
    ensures EncodeBigEndian(DecodeBigEndian(b)) == b
  {
    ValueDigits(b);
  }

  /** A string with its length before it. */
  function EncodeText(s: bytes): (b: bytes)
    requires |s| < 0x1_0000_0000
    ensures |b| == 4 + |s|
  {
    EncodeU32(|s|) + s
  }

  /** The readers force the last byte of a fixed text field to NUL. */
  function Terminate(s: bytes): (t: bytes)
    requires |s| > 0
    ensures |t| == |s| && t[|s| - 1] == 0
  {
    s[|s| - 1 := 0]
  }

  type CString = s: bytes | 0 !in s witness []

  /** `snprintf` into a zeroed field: cut to leave room for the terminator. */
  function FixedText(s: CString, size: nat): (t: bytes)
    requires size > 0
    ensures |t| == size && t[size - 1] == 0
    ensures var n := if |s| < size then |s| else size - 1; t[..n] == s[..n] && t[n] == 0
  {
    if |s| < size then s + Zeros(size - |s|) else s[..size - 1] + [0]
  }

  // ---------------------------------------------------------------- pieces within bytes

  /** The piece stands in the data at this position. */
  ghost predicate At(data: bytes, pos: nat, piece: bytes) {
    pos + |piece| <= |data| && data[pos..pos + |piece|] == piece
  }

  lemma AtParts(data: bytes, pos: nat, a: bytes, b: bytes)
    ensures At(data, pos, a + b) <==> At(data, pos, a) && At(data, pos + |a|, b)
  {
    if pos + |a| + |b| <= |data| {
      var both := data[pos..pos + |a + b|];
      SliceOfSlice(data, pos, pos + |a + b|, 0, |a|);
      SliceOfSlice(data, pos, pos + |a + b|, |a|, |a + b|);
      assert both == both[..|a|] + both[|a|..];
      assert (a + b)[..|a|] == a && (a + b)[|a|..] == b;
    }
  }

  lemma AtGrows(data: bytes, pos: nat, piece: bytes, more: bytes)
    requires At(data, pos, piece)
    ensures At(data + more, pos, piece)
  {
    assert (data + more)[pos..pos + |piece|] == data[pos..pos + |piece|];
  }

  lemma AtEnd(data: bytes, piece: bytes)
    ensures At(data + piece, |data|, piece)
  {
  }

  lemma AtInside(data: bytes, pos: nat, piece: bytes, inner: nat, part: bytes)
    requires At(data, pos, piece) && At(piece, inner, part)
    ensures At(data, pos + inner, part)
  {
    SliceOfSlice(data, pos, pos + |piece|, inner, inner + |part|);
  }

  /** Cutting a longer string where the shorter one can be cut. */
  lemma CutExtended(b: bytes, t: bytes, k: nat)
    requires k <= |b|
    ensures (b + t)[..k] == b[..k] && (b + t)[k..] == b[k..] + t
  {
  }

  lemma Reassociate(a: bytes, b: bytes, c: bytes)
    ensures a + (b + c) == (a + b) + c && a + [] == a
  {
  }
}

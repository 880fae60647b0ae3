/** Bit sequences and the integer operations the bit writer is made of. */
module Bits {
  import opened Bytes

  function Pow2(n: nat): (p: nat)
    ensures p > 0
  {
    if n == 0 then 1 else 2 * Pow2(n - 1)
  }

  /** The low `n` bits of `v`, least significant first. */
  function LowBits(v: nat, n: nat): (s: seq<bool>)
    ensures |s| == n
  {
    if n == 0 then [] else [v % 2 == 1] + LowBits(v / 2, n - 1)
  }

  /** The low `n` bits of `v`, most significant first. */
  function HighFirst(v: nat, n: nat): (s: seq<bool>)
    ensures |s| == n
  {
    if n == 0 then [] else HighFirst(v / 2, n - 1) + [v % 2 == 1]
  }

  /** Reading a number least significant bit first. */
  function LowValue(s: seq<bool>): nat {
    if s == [] then 0 else (if s[0] then 1 else 0) + 2 * LowValue(s[1..])
  }

  /** Reading a number most significant bit first. */
  function HighValue(s: seq<bool>): nat {
    if s == [] then 0 else 2 * HighValue(s[..|s| - 1]) + (if s[|s| - 1] then 1 else 0)
  }

  /** A byte stream as bits, each byte from its least significant bit. */
  function StreamBits(b: bytes): (s: seq<bool>)
    ensures |s| == 8 * |b|
  {
    if b == [] then [] else LowBits(b[0], 8) + StreamBits(b[1..])
  }

  // Python's unbounded `|`, `&`, `<<` and `>>` on non-negative integers.
  function Or(a: nat, b: nat): nat
    decreases a + b
  {
    if a == 0 && b == 0 then 0
    else (if a % 2 == 1 || b % 2 == 1 then 1 else 0) + 2 * Or(a / 2, b / 2)
  }

  function And(a: nat, b: nat): nat {
    if a == 0 then 0
    else (if a % 2 == 1 && b % 2 == 1 then 1 else 0) + 2 * And(a / 2, b / 2)
  }

  function ShiftLeft(a: nat, n: nat): nat { if n == 0 then a else 2 * ShiftLeft(a, n - 1) }

  function ShiftRight(a: nat, n: nat): nat { if n == 0 then a else ShiftRight(a / 2, n - 1) }

  /** The number the low `n` bits of `v` stand for: `v` modulo 2^n. */
  function Low(v: nat, n: nat): (r: nat)
    ensures r < Pow2(n)
  {
    if n == 0 then 0 else v % 2 + 2 * Low(v / 2, n - 1)
  }

  // ---------------------------------------------------------------- facts

  lemma {:induction false} AndMask(v: nat, n: nat)
    ensures And(v, Pow2(n) - 1) == Low(v, n)
  {
    if n == 0 {
      AndZero(v);
    } else {
      assert (Pow2(n) - 1) / 2 == Pow2(n - 1) - 1 && (Pow2(n) - 1) % 2 == 1;
      AndMask(v / 2, n - 1);
    }
  }

  lemma {:induction false} AndZero(v: nat)
    ensures And(v, 0) == 0
  {
    if v > 0 { AndZero(v / 2); }
  }

  lemma {:induction false} OrZero(b: nat)
    ensures Or(0, b) == b
  {
    if b > 0 { OrZero(b / 2); }
  }

  /** Or-ing in a number shifted past `a` places its bits after those of `a`. */
  lemma {:induction false} OrAppends(a: nat, n: nat, b: nat, m: nat)
    requires a < Pow2(n) && b < Pow2(m)
    ensures var c := Or(a, ShiftLeft(b, n));
            && c == a + ShiftLeft(b, n)
            && c < Pow2(n + m) && LowBits(c, n + m) == LowBits(a, n) + LowBits(b, m)
  {
    if n == 0 {
      OrZero(b);
      assert LowBits(a, 0) + LowBits(b, m) == LowBits(b, m);
    } else {
      var c, x := Or(a, ShiftLeft(b, n)), ShiftLeft(b, n - 1);
      OrAppends(a / 2, n - 1, b, m);
      OrDouble(a, x);
      assert c % 2 == a % 2 && c / 2 == Or(a / 2, x);
      assert LowBits(c, n + m) == [a % 2 == 1] + (LowBits(a / 2, n - 1) + LowBits(b, m));
    }
  }

  lemma OrDouble(a: nat, x: nat)
    ensures Or(a, 2 * x) == a % 2 + 2 * Or(a / 2, x)
  {
    assert (2 * x) / 2 == x && (2 * x) % 2 == 0;
  }

  /** The first bits of a number, then those of the shifted number. */
  lemma {:induction false} LowBitsSplit(v: nat, a: nat, b: nat)
    ensures LowBits(v, a + b) == LowBits(v, a) + LowBits(ShiftRight(v, a), b)
  {
    if a > 0 {
      LowBitsSplit(v / 2, a - 1, b);
    }
  }

  lemma {:induction false} LowBitsOfLow(v: nat, n: nat)
    ensures LowBits(Low(v, n), n) == LowBits(v, n)
  {
    if n > 0 { LowBitsOfLow(v / 2, n - 1); }
  }

  lemma {:induction false} LowOfSmall(v: nat, n: nat)
    requires v < Pow2(n)
    ensures Low(v, n) == v
  {
    if n > 0 { LowOfSmall(v / 2, n - 1); }
  }

  lemma {:induction false} ShiftRightSmall(v: nat, a: nat, n: nat)
    requires a <= n && v < Pow2(n)
    ensures ShiftRight(v, a) < Pow2(n - a)
  {
    if a > 0 { ShiftRightSmall(v / 2, a - 1, n - 1); }
  }

  lemma {:induction false} Pow2Grows(a: nat, b: nat)
    requires a <= b
    ensures Pow2(a) <= Pow2(b)
  {
    if a < b { Pow2Grows(a, b - 1); }
  }

  lemma {:induction false} LowBitsRead(v: nat, n: nat)
    requires v < Pow2(n)
    ensures LowValue(LowBits(v, n)) == v
  {
    if n > 0 { LowBitsRead(v / 2, n - 1); }
  }

  lemma {:induction false} HighFirstRead(v: nat, n: nat)
    requires v < Pow2(n)
    ensures HighValue(HighFirst(v, n)) == v
  {
    if n > 0 {
      HighFirstRead(v / 2, n - 1);
      var s := HighFirst(v, n);
      assert s[..n - 1] == HighFirst(v / 2, n - 1);
    }
  }

  lemma {:induction false} LowBitsZeros(n: nat)
    ensures forall i | 0 <= i < n :: !LowBits(0, n)[i]
  {
    if n > 0 { LowBitsZeros(n - 1); }
  }

  lemma {:induction false} StreamBitsConcat(a: bytes, b: bytes)
    ensures StreamBits(a + b) == StreamBits(a) + StreamBits(b)
  {
    if a == [] {
      assert a + b == b;
    } else {
      assert (a + b)[0] == a[0] && (a + b)[1..] == a[1..] + b;
      StreamBitsConcat(a[1..], b);
    }
  }

  lemma StreamBitsNext(a: bytes, x: byte)
    ensures StreamBits(a + [x]) == StreamBits(a) + LowBits(x, 8)
  {
    StreamBitsConcat(a, [x]);
    assert StreamBits([x]) == LowBits(x, 8) + StreamBits([][..]);
  }
}

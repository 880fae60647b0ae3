/** Length and distance tables, the encoding of one match, and the proof that it decodes. */
module FixedMatch {
  import opened Wrappers
  import opened Bits
  import opened Inflate
  import opened DeflateWriter

  const LENGTH_BASES: seq<nat> := [3, 4, 5, 6, 7, 8, 9, 10, 11, 13, 15, 17, 19, 23, 27, 31, 35, 43, 51, 59, 67, 83,
    99, 115, 131, 163, 195, 227, 258]
  const LENGTH_EXTRAS: seq<nat> := [0, 0, 0, 0, 0, 0, 0, 0, 1, 1, 1, 1, 2, 2, 2, 2, 3, 3, 3, 3, 4, 4,
    4, 4, 5, 5, 5, 5, 0]
  const DISTANCE_BASES: seq<nat> := [1, 2, 3, 4, 5, 7, 9, 13, 17, 25, 33, 49, 65, 97, 129, 193, 257, 385, 513, 769,
    1025, 1537, 2049, 3073, 4097, 6145, 8193, 12289, 16385, 24577]
  const DISTANCE_EXTRAS: seq<nat> := [0, 0, 0, 0, 1, 1, 2, 2, 3, 3, 4, 4, 5, 5, 6, 6, 7, 7, 8, 8,
    9, 9, 10, 10, 11, 11, 12, 12, 13, 13]

  /** The largest value entry `i` of a table covers. */
  function Maximum(bases: seq<nat>, extras: seq<nat>, i: nat): nat
    requires i < |bases| == |extras|
  {
    bases[i] + (if extras[i] > 0 then Pow2(extras[i]) - 1 else 0)
  }

  /** The first `n` entries cover every value from the first base up to `last`, without a gap. */
  ghost predicate Covers(bases: seq<nat>, extras: seq<nat>, n: nat, last: nat) {
    && 0 < n <= |bases| == |extras|
    && (forall i | 1 <= i < n :: bases[i] == Maximum(bases, extras, i - 1) + 1)
    && Maximum(bases, extras, n - 1) == last
    && (forall i | n <= i < |bases| :: Maximum(bases, extras, i) <= last)
  }

  /** The length table is the standard's; its 29th entry only repeats the last value of the 28th. */
  ghost predicate IsLengthTable(bases: seq<nat>, extras: seq<nat>) {
    && |bases| == |extras| == 29 && Covers(bases, extras, 28, 258)
    && forall i: nat | i < 29 :: LengthCode(i) == (bases[i], extras[i])
  }

  ghost predicate IsDistanceTable(bases: seq<nat>, extras: seq<nat>) {
    && |bases| == |extras| == 30 && Covers(bases, extras, 30, 32768)
    && forall j: nat | j < 30 :: DistanceCode(j) == (bases[j], extras[j])
  }

  lemma SmallPowers()
    ensures Pow2(1) == 2 && Pow2(2) == 4 && Pow2(3) == 8 && Pow2(4) == 16 && Pow2(5) == 32 && Pow2(6) == 64
    ensures Pow2(7) == 128 && Pow2(8) == 256 && Pow2(9) == 512 && Pow2(10) == 1024 && Pow2(11) == 2048
    ensures Pow2(12) == 4096 && Pow2(13) == 8192
  {
  }

  lemma LengthStep(i: nat)
    requires 1 <= i < 28
    ensures LENGTH_BASES[i] == Maximum(LENGTH_BASES, LENGTH_EXTRAS, i - 1) + 1
  {
    SmallPowers();
  }

  lemma LengthTableEnds()
    ensures |LENGTH_BASES| == |LENGTH_EXTRAS| == 29
    ensures Maximum(LENGTH_BASES, LENGTH_EXTRAS, 27) == Maximum(LENGTH_BASES, LENGTH_EXTRAS, 28) == 258
  {
    SmallPowers();
  }

  lemma LengthTableCovers()
    ensures Covers(LENGTH_BASES, LENGTH_EXTRAS, 28, 258)
  {
    LengthTableEnds();
    LengthSteps();
    CoversUpTo(LENGTH_BASES, LENGTH_EXTRAS);
  }

  lemma LengthSteps()
    requires |LENGTH_BASES| == |LENGTH_EXTRAS| == 29
    ensures forall i | 1 <= i < 28 :: LENGTH_BASES[i] == Maximum(LENGTH_BASES, LENGTH_EXTRAS, i - 1) + 1
  {
    forall i | 1 <= i < 28 ensures LENGTH_BASES[i] == Maximum(LENGTH_BASES, LENGTH_EXTRAS, i - 1) + 1 {
      LengthStep(i);
    }
  }

  lemma CoversUpTo(bases: seq<nat>, extras: seq<nat>)
    requires |bases| == |extras| == 29
    requires forall i | 1 <= i < 28 :: bases[i] == Maximum(bases, extras, i - 1) + 1
    requires Maximum(bases, extras, 27) == Maximum(bases, extras, 28) == 258
    ensures Covers(bases, extras, 28, 258)
  {
  }

  lemma LengthTableIsStandard(i: nat)
    requires i < 29
    ensures LengthCode(i) == (LENGTH_BASES[i], LENGTH_EXTRAS[i])
  {
    SmallPowers();
  }

  lemma LengthTableHolds()
    ensures IsLengthTable(LENGTH_BASES, LENGTH_EXTRAS)
  {
    LengthTableEnds();
    LengthTableCovers();
    LengthsAreStandard();
  }

  lemma LengthsAreStandard()
    requires |LENGTH_BASES| == |LENGTH_EXTRAS| == 29
    ensures forall i: nat | i < 29 :: LengthCode(i) == (LENGTH_BASES[i], LENGTH_EXTRAS[i])
  {
    forall i: nat | i < 29 ensures LengthCode(i) == (LENGTH_BASES[i], LENGTH_EXTRAS[i]) {
      LengthTableIsStandard(i);
    }
  }

  lemma DistanceTableCovers()
    ensures Covers(DISTANCE_BASES, DISTANCE_EXTRAS, 30, 32768)
  {
    SmallPowers();
  }

  /** From the fifth entry on each distance is, less one, twice the distance two entries earlier. */
  lemma DistanceTableDoubles(j: nat)
    requires 4 <= j < 30
    ensures DISTANCE_BASES[j] - 1 == 2 * (DISTANCE_BASES[j - 2] - 1)
    ensures DISTANCE_EXTRAS[j] == DISTANCE_EXTRAS[j - 2] + 1
  {
  }

  lemma DistanceTableStarts(j: nat)
    requires j < 4
    ensures DISTANCE_BASES[j] == j + 1 && DISTANCE_EXTRAS[j] == 0
  {
  }

  lemma DistanceCodeDoubles(j: nat)
    requires 4 <= j < 30
    ensures DistanceCode(j).0 - 1 == 2 * (DistanceCode(j - 2).0 - 1) && DistanceCode(j).1 == DistanceCode(j - 2).1 + 1
  {
    SmallPowers();
    assert j / 2 - 1 == ((j - 2) / 2 - 1) + 1 && j % 2 == (j - 2) % 2;
  }

  lemma {:induction false} DistanceTableIsStandard(j: nat)
    requires j < 30
    ensures DistanceCode(j) == (DISTANCE_BASES[j], DISTANCE_EXTRAS[j])
  {
    if j >= 4 {
      DistanceTableIsStandard(j - 2);
      DistanceTableDoubles(j);
      DistanceCodeDoubles(j);
    } else {
      DistanceTableStarts(j);
    }
  }

  lemma DistanceTableSizes()
    ensures |DISTANCE_BASES| == |DISTANCE_EXTRAS| == 30
  {
  }

  lemma DistancesAreStandard()
    requires |DISTANCE_BASES| == |DISTANCE_EXTRAS| == 30
    ensures forall j: nat | j < 30 :: DistanceCode(j) == (DISTANCE_BASES[j], DISTANCE_EXTRAS[j])
  {
    forall j: nat | j < 30 ensures DistanceCode(j) == (DISTANCE_BASES[j], DISTANCE_EXTRAS[j]) {
      DistanceTableIsStandard(j);
    }
  }

  lemma DistanceTableHolds()
    ensures IsDistanceTable(DISTANCE_BASES, DISTANCE_EXTRAS)
  {
    DistanceTableSizes();
    DistanceTableCovers();
    DistancesAreStandard();
  }

  // ---------------------------------------------------------------- finding an entry

  /** The first entry that reaches `value`. */
  ghost predicate FirstFit(bases: seq<nat>, extras: seq<nat>, value: nat, i: nat)
    requires |bases| == |extras|
  {
    && i < |bases| && value <= Maximum(bases, extras, i)
    && forall k | 0 <= k < i :: value > Maximum(bases, extras, k)
  }

  method FindEntry(bases: seq<nat>, extras: seq<nat>, value: nat) returns (index: nat)
    requires |bases| == |extras|
    ensures index <= |bases| && (index < |bases| ==> FirstFit(bases, extras, value, index))
    ensures index == |bases| ==> forall k | 0 <= k < |bases| :: value > Maximum(bases, extras, k)
  {
    index := 0;
    while index < |bases| && value > Maximum(bases, extras, index)
      invariant 0 <= index <= |bases|
      invariant forall k | 0 <= k < index :: value > Maximum(bases, extras, k)
    {
      index := index + 1;
    }
  }

  function AtLeast(x: nat, bound: nat): nat { if x < bound then bound else x }

  /** A gapless table has an entry for exactly the values up to its last one, and the entry found is
      its base plus an excess that fits the extra bits. */
  lemma EntryFits(bases: seq<nat>, extras: seq<nat>, n: nat, last: nat, value: nat, i: nat)
    requires Covers(bases, extras, n, last) && FirstFit(bases, extras, value, i)
    requires extras[0] == 0
    ensures i < n && value <= last
    ensures bases[i] <= AtLeast(value, bases[0])
    ensures extras[i] == 0 ==> AtLeast(value, bases[0]) == bases[i]
    ensures extras[i] > 0 ==> value >= bases[i] && value - bases[i] < Pow2(extras[i])
  {
    MaximaGrow(bases, extras, n, last, i);
    if i > 0 { assert value > Maximum(bases, extras, i - 1); }
    BasesGrow(bases, extras, n, last, i);
  }

  lemma {:induction false} MaximaGrow(bases: seq<nat>, extras: seq<nat>, n: nat, last: nat, i: nat)
    requires Covers(bases, extras, n, last) && i < n
    ensures Maximum(bases, extras, i) <= last
    decreases n - i
  {
    if i < n - 1 {
      MaximaGrow(bases, extras, n, last, i + 1);
      assert bases[i + 1] == Maximum(bases, extras, i) + 1;
    }
  }

  lemma {:induction false} BasesGrow(bases: seq<nat>, extras: seq<nat>, n: nat, last: nat, i: nat)
    requires Covers(bases, extras, n, last) && i < n
    ensures bases[0] <= bases[i]
  {
    if i > 0 {
      BasesGrow(bases, extras, n, last, i - 1);
      assert bases[i] == Maximum(bases, extras, i - 1) + 1;
    }
  }

  lemma NoEntry(bases: seq<nat>, extras: seq<nat>, n: nat, last: nat, value: nat)
    requires Covers(bases, extras, n, last)
    requires forall k | 0 <= k < |bases| :: value > Maximum(bases, extras, k)
    ensures value > last
  {
    assert value > Maximum(bases, extras, n - 1);
  }

  // ---------------------------------------------------------------- extra bits

  function ExtraBits(base: nat, extra: nat, value: nat): seq<bool> {
    if extra > 0 && value >= base then LowBits(value - base, extra) else []
  }

  method WriteExtra(writer: BitWriter, base: nat, extra: nat, value: nat)
    requires writer.Valid()
    requires extra > 0 ==> value >= base
    modifies writer
    ensures writer.Valid() && writer.Written() == old(writer.Written()) + ExtraBits(base, extra, value)
  {
    if extra > 0 {
      writer.Write(value - base, extra);
    }
  }

  lemma ExtraReads(base: nat, extra: nat, value: nat, rest: seq<bool>)
    requires extra > 0 ==> value >= base && value - base < Pow2(extra)
    ensures ReadNumber(ExtraBits(base, extra, value) + rest, extra)
         == Some((if extra > 0 then value - base else 0, rest))
  {
    var e := ExtraBits(base, extra, value);
    assert (e + rest)[..|e|] == e && (e + rest)[|e|..] == rest;
    if extra > 0 {
      LowBitsRead(value - base, extra);
    }
  }

  // ---------------------------------------------------------------- code words

  lemma {:induction false} HighFirstPrefix(v: nat, n: nat, k: nat)
    requires k <= n
    ensures HighFirst(v, n)[..k] == HighFirst(ShiftRight(v, n - k), k)
  {
    if k == n {
      assert HighFirst(v, n)[..n] == HighFirst(v, n);
    } else {
      HighFirstPrefix(v / 2, n - 1, k);
      assert HighFirst(v, n)[..k] == HighFirst(v / 2, n - 1)[..k];
    }
  }

  /** What a decoder sees when it looks at the first `k` bits of an `n`-bit code word. */
  lemma Peek(v: nat, n: nat, k: nat, rest: seq<bool>)
    requires k <= n && v < Pow2(n)
    ensures var s := HighFirst(v, n) + rest;
            && |s| >= n && HighValue(s[..k]) == ShiftRight(v, n - k)
            && s[n..] == rest
  {
    var s := HighFirst(v, n) + rest;
    HighFirstPrefix(v, n, k);
    ShiftRightSmall(v, n - k, n);
    HighFirstRead(ShiftRight(v, n - k), k);
    assert s[..k] == HighFirst(v, n)[..k];
  }

  /** The fixed code is prefix-free: every symbol's bits decode to it, whatever follows. */
  lemma SymbolDecodes(symbol: nat, rest: seq<bool>)
    requires symbol <= 287
    ensures DecodeSymbol(SymbolBits(symbol) + rest) == Some((symbol, rest))
  {
    var (code, n) := FixedCode(symbol);
    if n == 7 {
      SevenBits(code, rest);
    } else if n == 8 {
      EightBits(code, rest);
    } else {
      NineBits(code, rest);
    }
  }

  lemma SevenBits(code: nat, rest: seq<bool>)
    requires code <= 23
    ensures DecodeSymbol(HighFirst(code, 7) + rest) == Some((256 + code, rest))
  {
    SmallPowers();
    Peek(code, 7, 7, rest);
    assert ShiftRight(code, 0) == code;
  }

  lemma EightBits(code: nat, rest: seq<bool>)
    requires 48 <= code <= 199
    ensures DecodeSymbol(HighFirst(code, 8) + rest)
         == Some((if code <= 191 then code - 48 else 280 + (code - 192), rest))
  {
    SmallPowers();
    Peek(code, 8, 8, rest);
    Peek(code, 8, 7, rest);
    assert ShiftRight(code, 0) == code;
    OneShift(code);
  }

  lemma NineBits(code: nat, rest: seq<bool>)
    requires 400 <= code <= 511
    ensures DecodeSymbol(HighFirst(code, 9) + rest) == Some((144 + (code - 400), rest))
  {
    SmallPowers();
    Peek(code, 9, 9, rest);
    Peek(code, 9, 8, rest);
    Peek(code, 9, 7, rest);
    assert ShiftRight(code, 0) == code;
    OneShift(code);
    assert ShiftRight(code, 2) == ShiftRight(code / 2, 1);
    OneShift(code / 2);
  }

  lemma OneShift(v: nat)
    ensures ShiftRight(v, 1) == v / 2
  {
    assert ShiftRight(v / 2, 0) == v / 2;
  }

  // ---------------------------------------------------------------- one match

  /** What is known of the table entry a value was found in. */
  ghost predicate Entry(base: nat, extra: nat, value: nat, first: nat) {
    && (extra == 0 ==> AtLeast(value, first) == base)
    && (extra > 0 ==> value >= base && value - base < Pow2(extra) && AtLeast(value, first) == value)
  }

  ghost function Excess(base: nat, extra: nat, value: nat): nat {
    if extra > 0 && value >= base then value - base else 0
  }

  lemma EntryReads(base: nat, extra: nat, value: nat, first: nat, rest: seq<bool>)
    requires Entry(base, extra, value, first)
    ensures base + Excess(base, extra, value) == AtLeast(value, first)
    ensures ReadNumber(ExtraBits(base, extra, value) + rest, extra) == Some((Excess(base, extra, value), rest))
  {
    ExtraReads(base, extra, value, rest);
  }

  method FindLength(length: nat) returns (index: nat, base: nat, extra: nat)
    ensures index <= 29 && (index < 29 <==> length <= 258)
    ensures index < 29 ==> LengthCode(index) == (base, extra) && Entry(base, extra, length, 3)
  {
    LengthTableHolds();
    index := FindEntry(LENGTH_BASES, LENGTH_EXTRAS, length);
    LengthFound(LENGTH_BASES, LENGTH_EXTRAS, length, index);
    if index == |LENGTH_BASES| {
      return index, 0, 0;
    }
    return index, LENGTH_BASES[index], LENGTH_EXTRAS[index];
  }

  lemma LengthFound(bases: seq<nat>, extras: seq<nat>, length: nat, index: nat)
    requires IsLengthTable(bases, extras) && index <= |bases|
    requires index < |bases| ==> FirstFit(bases, extras, length, index)
    requires index == |bases| ==> forall k | 0 <= k < |bases| :: length > Maximum(bases, extras, k)
    ensures index < 29 <==> length <= 258
    ensures index < 29 ==> Entry(bases[index], extras[index], length, 3)
  {
    assert LengthCode(0) == (bases[0], extras[0]);
    if index == |bases| {
      NoEntry(bases, extras, 28, 258, length);
    } else {
      EntryFits(bases, extras, 28, 258, length, index);
    }
  }

  method FindDistance(distance: nat) returns (index: nat, base: nat, extra: nat)
    ensures index <= 30 && (index < 30 <==> distance <= 32768)
    ensures index < 30 ==> DistanceCode(index) == (base, extra) && Entry(base, extra, distance, 1)
  {
    DistanceTableHolds();
    index := FindEntry(DISTANCE_BASES, DISTANCE_EXTRAS, distance);
    DistanceFound(DISTANCE_BASES, DISTANCE_EXTRAS, distance, index);
    if index == |DISTANCE_BASES| {
      return index, 0, 0;
    }
    return index, DISTANCE_BASES[index], DISTANCE_EXTRAS[index];
  }

  lemma DistanceFound(bases: seq<nat>, extras: seq<nat>, distance: nat, index: nat)
    requires IsDistanceTable(bases, extras) && index <= |bases|
    requires index < |bases| ==> FirstFit(bases, extras, distance, index)
    requires index == |bases| ==> forall k | 0 <= k < |bases| :: distance > Maximum(bases, extras, k)
    ensures index < 30 <==> distance <= 32768
    ensures index < 30 ==> Entry(bases[index], extras[index], distance, 1)
  {
    assert DistanceCode(0) == (bases[0], extras[0]);
    if index == |bases| {
      NoEntry(bases, extras, 30, 32768, distance);
    } else {
      EntryFits(bases, extras, 30, 32768, distance, index);
    }
  }

  method WriteSymbolAndExtra(writer: BitWriter, symbol: nat, base: nat, extra: nat, value: nat)
    requires writer.Valid() && symbol <= 287 && (extra > 0 ==> value >= base)
    modifies writer
    ensures writer.Valid()
    ensures writer.Written() == old(writer.Written()) + (SymbolBits(symbol) + ExtraBits(base, extra, value))
  {
    ghost var before := writer.Written();
    var _ := WriteFixedSymbol(writer, symbol);
    ghost var middle := writer.Written();
    WriteExtra(writer, base, extra, value);
    Appended(before, middle, writer.Written(), SymbolBits(symbol), ExtraBits(base, extra, value));
  }

  method WriteCodeAndExtra(writer: BitWriter, code: nat, base: nat, extra: nat, value: nat)
    requires writer.Valid() && (extra > 0 ==> value >= base)
    modifies writer
    ensures writer.Valid()
    ensures writer.Written() == old(writer.Written()) + (HighFirst(code, 5) + ExtraBits(base, extra, value))
  {
    ghost var before := writer.Written();
    var reversed := ReverseBits(code, 5);
    writer.Write(reversed, 5);
    ghost var middle := writer.Written();
    WriteExtra(writer, base, extra, value);
    Appended(before, middle, writer.Written(), HighFirst(code, 5), ExtraBits(base, extra, value));
  }

  /** The bits of a match: a length symbol, a five-bit distance code, each with its extra bits. */
  ghost function MatchBits(i: nat, lengthExtra: seq<bool>, j: nat, distanceExtra: seq<bool>): seq<bool>
    requires i < 29
  {
    (SymbolBits(257 + i) + lengthExtra) + (HighFirst(j, 5) + distanceExtra)
  }

  /** Writes a match. For the lengths and distances the tables reach it decodes, whatever follows, to
      that match; a length below 3 or a distance below 1, which the format cannot express, decodes to
      3 or 1. Anything larger is refused. */
  method WriteFixedMatch(writer: BitWriter, length: nat, distance: nat) returns (ok: bool, ghost code: seq<bool>)
    requires writer.Valid()
    modifies writer
    ensures writer.Valid() && (ok <==> length <= 258 && distance <= 32768)
    ensures ok ==>
              && writer.Written() == old(writer.Written()) + code
              && forall rest ::
                   DecodeToken(code + rest) == Some((Match(AtLeast(length, 3), AtLeast(distance, 1)), rest))
  {
    code := [];
    ghost var before := writer.Written();
    var i, lengthBase, lengthExtra := FindLength(length);
    if i == 29 {
      return false, code;
    }
    WriteSymbolAndExtra(writer, 257 + i, lengthBase, lengthExtra, length);
    ghost var middle := writer.Written();
    var j, distanceBase, distanceExtra := FindDistance(distance);
    if j == 30 {
      return false, code;
    }
    WriteCodeAndExtra(writer, j, distanceBase, distanceExtra, distance);
    code := MatchBits(i, ExtraBits(lengthBase, lengthExtra, length), j,
                      ExtraBits(distanceBase, distanceExtra, distance));
    MatchDecodes(i, lengthBase, lengthExtra, length, j, distanceBase, distanceExtra, distance);
    Appended(before, middle, writer.Written(),
             SymbolBits(257 + i) + ExtraBits(lengthBase, lengthExtra, length),
             HighFirst(j, 5) + ExtraBits(distanceBase, distanceExtra, distance));
    return true, code;
  }

  lemma Appended(before: seq<bool>, middle: seq<bool>, after: seq<bool>, a: seq<bool>, b: seq<bool>)
    requires middle == before + a && after == middle + b
    ensures after == before + (a + b)
  {
  }

  lemma MatchDecodes(i: nat, lengthBase: nat, lengthExtra: nat, length: nat,
                     j: nat, distanceBase: nat, distanceExtra: nat, distance: nat)
    requires i < 29 && LengthCode(i) == (lengthBase, lengthExtra) && Entry(lengthBase, lengthExtra, length, 3)
    requires j < 30 && DistanceCode(j) == (distanceBase, distanceExtra)
    requires Entry(distanceBase, distanceExtra, distance, 1)
    ensures forall rest ::
              DecodeToken(MatchBits(i, ExtraBits(lengthBase, lengthExtra, length),
                                    j, ExtraBits(distanceBase, distanceExtra, distance)) + rest)
              == Some((Match(AtLeast(length, 3), AtLeast(distance, 1)), rest))
  {
    var le, de := ExtraBits(lengthBase, lengthExtra, length), ExtraBits(distanceBase, distanceExtra, distance);
    forall rest
      ensures DecodeToken(MatchBits(i, le, j, de) + rest) == Some((Match(AtLeast(length, 3), AtLeast(distance, 1)), rest))
    {
      MatchDecodesThen(i, lengthBase, lengthExtra, length, j, distanceBase, distanceExtra, distance, rest);
    }
  }

  lemma MatchDecodesThen(i: nat, lengthBase: nat, lengthExtra: nat, length: nat,
                         j: nat, distanceBase: nat, distanceExtra: nat, distance: nat, rest: seq<bool>)
    requires i < 29 && LengthCode(i) == (lengthBase, lengthExtra) && Entry(lengthBase, lengthExtra, length, 3)
    requires j < 30 && DistanceCode(j) == (distanceBase, distanceExtra)
    requires Entry(distanceBase, distanceExtra, distance, 1)
    ensures DecodeToken(MatchBits(i, ExtraBits(lengthBase, lengthExtra, length),
                                  j, ExtraBits(distanceBase, distanceExtra, distance)) + rest)
         == Some((Match(AtLeast(length, 3), AtLeast(distance, 1)), rest))
  {
    var le, de := ExtraBits(lengthBase, lengthExtra, length), ExtraBits(distanceBase, distanceExtra, distance);
    EntryReads(lengthBase, lengthExtra, length, 3, HighFirst(j, 5) + (de + rest));
    EntryReads(distanceBase, distanceExtra, distance, 1, rest);
    DistanceDecodes(j, distanceBase, distanceExtra, de, Excess(distanceBase, distanceExtra, distance), rest);
    TokenDecodes(i, lengthBase, lengthExtra, le, Excess(lengthBase, lengthExtra, length), AtLeast(distance, 1),
                 HighFirst(j, 5) + (de + rest), rest);
    Regrouped(i, le, j, de, rest, Some((Match(AtLeast(length, 3), AtLeast(distance, 1)), rest)));
  }

  lemma Regrouped(i: nat, le: seq<bool>, j: nat, de: seq<bool>, rest: seq<bool>, r: Option<(Token, seq<bool>)>)
    requires i < 29 && j < 30 && DecodeToken(SymbolBits(257 + i) + (le + (HighFirst(j, 5) + (de + rest)))) == r
    ensures DecodeToken(MatchBits(i, le, j, de) + rest) == r
  {
    MatchBitsThen(i, le, j, de, rest);
  }

  lemma MatchBitsThen(i: nat, le: seq<bool>, j: nat, de: seq<bool>, rest: seq<bool>)
    requires i < 29 && j < 30
    ensures MatchBits(i, le, j, de) + rest == SymbolBits(257 + i) + (le + (HighFirst(j, 5) + (de + rest)))
  {
    Regroup(SymbolBits(257 + i), le, HighFirst(j, 5), de, rest);
  }

  lemma TokenDecodes(i: nat, base: nat, extra: nat, le: seq<bool>, lx: nat, distance: nat, tail: seq<bool>,
                     rest: seq<bool>)
    requires i < 29 && LengthCode(i) == (base, extra) && ReadNumber(le + tail, extra) == Some((lx, tail))
    requires DecodeDistance(tail) == Some((distance, rest))
    ensures DecodeToken(SymbolBits(257 + i) + (le + tail)) == Some((Match(base + lx, distance), rest))
  {
    SymbolDecodes(257 + i, le + tail);
    PartsDecode(i, base, extra, SymbolBits(257 + i) + (le + tail), le + tail, lx, distance, tail, rest);
  }

  lemma Regroup(a: seq<bool>, b: seq<bool>, c: seq<bool>, d: seq<bool>, rest: seq<bool>)
    ensures (a + b) + (c + d) + rest == a + (b + (c + (d + rest)))
  {
  }

  lemma DistanceDecodes(j: nat, base: nat, extra: nat, de: seq<bool>, dx: nat, rest: seq<bool>)
    requires j < 30 && DistanceCode(j) == (base, extra) && ReadNumber(de + rest, extra) == Some((dx, rest))
    ensures DecodeDistance(HighFirst(j, 5) + (de + rest)) == Some((base + dx, rest))
  {
    SmallPowers();
    Peek(j, 5, 5, de + rest);
    assert ShiftRight(j, 0) == j;
    DistanceAt(HighFirst(j, 5) + (de + rest), j, base, extra, de + rest, dx, rest);
  }

  lemma DistanceAt(s: seq<bool>, j: nat, base: nat, extra: nat, tail: seq<bool>, dx: nat, rest: seq<bool>)
    requires j < 30 && DistanceCode(j) == (base, extra)
    requires |s| >= 5 && HighValue(s[..5]) == j && s[5..] == tail
    requires ReadNumber(tail, extra) == Some((dx, rest))
    ensures DecodeDistance(s) == Some((base + dx, rest))
  {
  }

  lemma PartsDecode(i: nat, base: nat, extra: nat, bits: seq<bool>, after: seq<bool>, lx: nat, distance: nat,
                    tail: seq<bool>, rest: seq<bool>)
    requires i < 29 && LengthCode(i) == (base, extra) && ReadNumber(after, extra) == Some((lx, tail))
    requires DecodeDistance(tail) == Some((distance, rest))
    requires DecodeSymbol(bits) == Some((257 + i, after))
    ensures DecodeToken(bits) == Some((Match(base + lx, distance), rest))
  {
    assert DecodeMatch(i, after) == Some((Match(base + lx, distance), rest));
  }
}

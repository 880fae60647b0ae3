/** Looking a word up through the sample table or the page table, compared with a scan of the whole
    word list. */
module DictionaryLookup {
  import opened Bytes
  import opened Wrappers
  import opened DictionaryIndex

  // ---------------------------------------------------------------- byte order and case folding

  /** The order of Python's `bytes`. */
  predicate Le(a: bytes, b: bytes) {
    a == [] || (b != [] && (a[0] < b[0] || (a[0] == b[0] && Le(a[1..], b[1..]))))
  }

  /** `bytes.lower()`: only ASCII letters change. */
  function FoldByte(x: byte): byte { if 0x41 <= x <= 0x5A then x + 0x20 else x }

  function Fold(s: bytes): (r: bytes)
    ensures |r| == |s| && forall i | 0 <= i < |s| :: r[i] == FoldByte(s[i])
  {
    if s == [] then [] else [FoldByte(s[0])] + Fold(s[1..])
  }

  lemma {:induction false} LeReflexive(a: bytes)
    ensures Le(a, a)
  {
    if a != [] { LeReflexive(a[1..]); }
  }

  lemma {:induction false} LeTransitive(a: bytes, b: bytes, c: bytes)
    requires Le(a, b) && Le(b, c)
    ensures Le(a, c)
  {
    if a != [] && a[0] == b[0] && b[0] == c[0] { LeTransitive(a[1..], b[1..], c[1..]); }
  }

  lemma {:induction false} LeTotal(a: bytes, b: bytes)
    ensures Le(a, b) || Le(b, a)
  {
    if a != [] && b != [] && a[0] == b[0] { LeTotal(a[1..], b[1..]); }
  }

  lemma {:induction false} LeTake(a: bytes, b: bytes, k: nat)
    requires Le(a, b)
    ensures Le(Take(a, k), Take(b, k))
  {
    if a != [] && k > 0 && a[0] == b[0] {
      LeTake(a[1..], b[1..], k - 1);
      assert Take(a, k)[1..] == Take(a[1..], k - 1) && Take(b, k)[1..] == Take(b[1..], k - 1);
    }
  }

  lemma {:induction false} TakeLe(a: bytes, k: nat)
    ensures Le(Take(a, k), a)
  {
    if a != [] && k > 0 {
      TakeLe(a[1..], k - 1);
      assert Take(a, k)[1..] == Take(a[1..], k - 1);
    }
  }

  function Take(s: bytes, k: nat): bytes { if |s| > k then s[..k] else s }

  lemma FoldTake(w: bytes)
    ensures Fold(Truncated(w)) == Take(Fold(w), PREFIX_LEN)
  {
  }

  /** `rstrip(b"\\x00")`. */
  function StripNuls(s: bytes): bytes {
    if s != [] && s[|s| - 1] == 0 then StripNuls(s[..|s| - 1]) else s
  }

  lemma {:induction false} StripPadding(w: bytes, n: nat)
    requires 0 !in w
    ensures StripNuls(w + Zeros(n)) == w
  {
    if n == 0 {
      assert w + Zeros(0) == w;
      if w != [] { assert w[|w| - 1] in w; }
    } else {
      assert (w + Zeros(n))[..|w| + n - 1] == w + Zeros(n - 1);
      StripPadding(w, n - 1);
    }
  }

  // ---------------------------------------------------------------- the plain scan

  datatype Result = Found(offset: nat, size: nat) | NotFound | Raised

  function Payload(b: bytes): Result
    requires |b| == 8
  {
    Found(DecodeBigEndian(b[..4]), DecodeBigEndian(b[4..]))
  }

  /** The first entry from `a` up to `b` with exactly this word. */
  ghost function Scan(items: seq<Item>, a: nat, b: nat, target: bytes): Result
    requires a <= b <= |items| && WellFormed(items, 8)
    decreases b - a
  {
    if a == b then NotFound
    else
      assert items[a] in items;
      if items[a].word == target then Payload(items[a].payload) else Scan(items, a + 1, b, target)
  }

  ghost function LinearScan(items: seq<Item>, target: bytes): Result
    requires WellFormed(items, 8)
  {
    Scan(items, 0, |items|, target)
  }

  /** At `p` stand the target, a NUL and the two numbers of the result. */
  ghost predicate MatchAt(idx: bytes, target: bytes, r: Result, p: nat) {
    && p + |target| + 9 <= |idx|
    && idx[p..p + |target|] == target && idx[p + |target|] == 0
    && r == Payload(idx[p + |target| + 1..p + |target| + 9])
  }

  ghost predicate IsExactMatch(idx: bytes, target: bytes, r: Result) {
    exists p: nat :: MatchAt(idx, target, r, p)
  }

  /** What the scan of the bytes from `pos` up to `end` answers: a word without its NUL ends it, and
      a payload cut short raises. */
  ghost function ByteScan(idx: bytes, pos: nat, end: nat, target: bytes): Result
    decreases |idx| - pos
  {
    if pos >= end then NotFound
    else if z: nat :| IsNextNul(idx, pos, z) then
      if z + 9 > |idx| then Raised
      else if idx[pos..z] == target then Payload(idx[z + 1..z + 9])
      else ByteScan(idx, z + 9, end, target)
    else NotFound
  }

  method ScanBytes(idx: bytes, start: nat, end: nat, target: bytes) returns (r: Result)
    ensures r == ByteScan(idx, start, end, target)
  {
    var pos := start;
    while pos < end
      invariant ByteScan(idx, start, end, target) == ByteScan(idx, pos, end, target)
      decreases |idx| - pos
    {
      var nul := NextNul(idx, pos);
      if nul.None? {
        break;
      }
      NextNulUnique(idx, pos, nul.value);
      if nul.value + 9 > |idx| {
        return Raised;
      }
      if idx[pos..nul.value] == target {
        return Payload(idx[nul.value + 1..nul.value + 9]);
      }
      pos := nul.value + 9;
    }
    return NotFound;
  }

  lemma NextNulUnique(idx: bytes, pos: nat, z: nat)
    requires IsNextNul(idx, pos, z)
    ensures forall y: nat :: IsNextNul(idx, pos, y) ==> y == z
  {
  }

  /** Whatever bytes the tables send the scan to, an answer stands beside the very target. */
  lemma {:induction false} AnswerIsExact(idx: bytes, pos: nat, end: nat, target: bytes)
    ensures ByteScan(idx, pos, end, target).Found? ==> IsExactMatch(idx, target, ByteScan(idx, pos, end, target))
    decreases |idx| - pos
  {
    if z: nat :| pos < end && IsNextNul(idx, pos, z) {
      NextNulUnique(idx, pos, z);
      if z + 9 <= |idx| {
        if idx[pos..z] == target {
          assert MatchAt(idx, target, ByteScan(idx, pos, end, target), pos);
        } else {
          AnswerIsExact(idx, z + 9, end, target);
        }
      }
    }
  }

  /** Between two entries of a well-formed list the bytes answer like the entries. */
  lemma {:induction false} ByteScanIsScan(idx: bytes, items: seq<Item>, a: nat, b: nat, target: bytes)
    requires WellFormed(items, 8) && idx == EncodeAll(items) && a <= b <= |items|
    ensures ByteScan(idx, Position(items, a), Position(items, b), target) == Scan(items, a, b, target)
    decreases b - a
  {
    if a < b {
      ByteScanIsScan(idx, items, a + 1, b, target);
      EntryScanned(idx, items, a, b, target);
    }
  }

  lemma EntryScanned(idx: bytes, items: seq<Item>, a: nat, b: nat, target: bytes)
    requires WellFormed(items, 8) && idx == EncodeAll(items) && a < b <= |items|
    ensures items[a] in items && Position(items, a) < Position(items, b)
    ensures ByteScan(idx, Position(items, a), Position(items, b), target)
         == if items[a].word == target then Payload(items[a].payload)
            else ByteScan(idx, Position(items, a + 1), Position(items, b), target)
  {
    assert items[a] in items;
    var z := NulOf(items, a);
    PositionsGrow(items, a, b);
    ItemScanned(idx, Position(items, a), Position(items, b), target, z, items[a], Position(items, a + 1));
  }

  lemma ItemScanned(idx: bytes, pos: nat, end: nat, target: bytes, z: nat, item: Item, next: nat)
    requires pos < end && IsNextNul(idx, pos, z) && next == z + 9 <= |idx| && |item.payload| == 8
    requires idx[pos..z] == item.word && idx[z + 1..z + 9] == item.payload
    ensures ByteScan(idx, pos, end, target)
         == if item.word == target then Payload(item.payload) else ByteScan(idx, next, end, target)
  {
    NextNulUnique(idx, pos, z);
  }

  lemma NulOf(items: seq<Item>, k: nat) returns (z: nat)
    requires WellFormed(items, 8) && k < |items|
    ensures IsNextNul(EncodeAll(items), Position(items, k), z)
    ensures z + 9 == Position(items, k + 1) <= |EncodeAll(items)|
    ensures EncodeAll(items)[Position(items, k)..z] == items[k].word
    ensures EncodeAll(items)[z + 1..z + 9] == items[k].payload
  {
    HasNul(items, 8, k);
    z := FirstNul(EncodeAll(items), Position(items, k), Position(items, k) + |items[k].word|);
    WordEnds(items, 8, k, z);
  }

  lemma {:induction false} FirstNul(data: bytes, pos: nat, at: nat) returns (z: nat)
    requires pos <= at < |data| && data[at] == 0
    ensures IsNextNul(data, pos, z)
    decreases at - pos
  {
    if data[pos] == 0 { z := pos; } else { z := FirstNul(data, pos + 1, at); }
  }

  lemma {:induction false} ScanFinds(items: seq<Item>, a: nat, b: nat, target: bytes, i: nat)
    requires a <= i < b <= |items| && WellFormed(items, 8) && items[i].word == target
    requires forall k | a <= k < i :: items[k].word != target
    ensures items[i] in items && Scan(items, a, b, target) == Payload(items[i].payload)
    decreases i - a
  {
    assert items[i] in items;
    if a < i { ScanFinds(items, a + 1, b, target, i); }
  }

  lemma {:induction false} ScanMisses(items: seq<Item>, a: nat, b: nat, target: bytes)
    requires a <= b <= |items| && WellFormed(items, 8)
    requires forall k | a <= k < b :: items[k].word != target
    ensures Scan(items, a, b, target) == NotFound
    decreases b - a
  {
    if a < b { ScanMisses(items, a + 1, b, target); }
  }

  // ---------------------------------------------------------------- sorted word lists

  ghost function Key(items: seq<Item>, k: nat): bytes
    requires k < |items|
  {
    Fold(items[k].word)
  }

  /** Distinct words in folded order, as the tools write them. */
  ghost predicate SortedList(items: seq<Item>) {
    && WellFormed(items, 8)
    && (forall i, j | 0 <= i < j < |items| :: items[i].word != items[j].word)
    && (forall i, j | 0 <= i <= j < |items| :: Le(Key(items, i), Key(items, j)))
  }

  /** A part of a sorted list gives the answer of the whole for every word of that part, and NotFound
      for every other word. */
  lemma ScanPart(items: seq<Item>, a: nat, b: nat, target: bytes)
    requires SortedList(items) && a <= b <= |items|
    ensures Scan(items, a, b, target) == LinearScan(items, target)
       <==> (forall i | 0 <= i < |items| && items[i].word == target :: a <= i < b)
  {
    if i :| 0 <= i < |items| && items[i].word == target {
      ScanFinds(items, 0, |items|, target, i);
      if a <= i < b {
        ScanFinds(items, a, b, target, i);
      } else {
        ScanMisses(items, a, b, target);
      }
    } else {
      ScanMisses(items, 0, |items|, target);
      ScanMisses(items, a, b, target);
    }
  }

  // ---------------------------------------------------------------- the sampled search

  /** What the search compares for row `j`: the folded truncated word of entry `16 j`. */
  ghost function RowKey(items: seq<Item>, j: nat): bytes
    requires SAMPLE_STRIDE * j < |items|
  {
    Fold(Truncated(items[SAMPLE_STRIDE * j].word))
  }

  ghost function BlockEnd(items: seq<Item>, j: nat): nat {
    Least(SAMPLE_STRIDE * (j + 1), |items|)
  }

  /** The row the search settles on: the last one whose key is not above the target. */
  ghost predicate Chosen(items: seq<Item>, target: bytes, row: nat) {
    && row < SampleCount(|items|)
    && (forall j | 1 <= j <= row :: Le(RowKey(items, j), Fold(target)))
    && (forall j | row < j < SampleCount(|items|) :: !Le(RowKey(items, j), Fold(target)))
  }

  /** Each sampled key is strictly above the folded word just before its entry. */
  ghost predicate Separated(items: seq<Item>) {
    forall j | 1 <= j < SampleCount(|items|) :: !Le(RowKey(items, j), Key(items, SAMPLE_STRIDE * j - 1))
  }

  lemma RowKeysGrow(items: seq<Item>, i: nat, j: nat)
    requires SortedList(items) && i <= j && SAMPLE_STRIDE * j < |items|
    ensures Le(RowKey(items, i), RowKey(items, j))
    ensures Le(RowKey(items, j), Key(items, SAMPLE_STRIDE * j))
  {
    FoldTake(items[SAMPLE_STRIDE * i].word);
    FoldTake(items[SAMPLE_STRIDE * j].word);
    LeTake(Key(items, SAMPLE_STRIDE * i), Key(items, SAMPLE_STRIDE * j), PREFIX_LEN);
    TakeLe(Key(items, SAMPLE_STRIDE * j), PREFIX_LEN);
  }

  lemma ChosenBlockHolds(items: seq<Item>, target: bytes, row: nat, i: nat)
    requires SortedList(items) && Separated(items) && Chosen(items, target, row)
    requires i < |items| && items[i].word == target
    ensures SAMPLE_STRIDE * row <= i < BlockEnd(items, row)
  {
    var q := i / SAMPLE_STRIDE;
    RowKeysGrow(items, q, q);
    LeTransitive(RowKey(items, q), Key(items, SAMPLE_STRIDE * q), Key(items, i));
    assert q <= row;
    if q < row {
      assert Le(RowKey(items, row), Fold(target));
      LeTransitive(RowKey(items, row), Key(items, i), Key(items, SAMPLE_STRIDE * row - 1));
      assert false;
    }
  }

  lemma {:induction false} ChosenExists(items: seq<Item>, target: bytes, k: nat) returns (row: nat)
    requires SortedList(items) && k < SampleCount(|items|)
    requires forall j | 1 <= j <= k :: Le(RowKey(items, j), Fold(target))
    ensures Chosen(items, target, row) && row >= k
    decreases SampleCount(|items|) - k
  {
    if k + 1 == SampleCount(|items|) {
      row := k;
    } else if Le(RowKey(items, k + 1), Fold(target)) {
      row := ChosenExists(items, target, k + 1);
    } else {
      row := k;
      forall j | k < j < SampleCount(|items|) ensures !Le(RowKey(items, j), Fold(target)) {
        RowKeysGrow(items, k + 1, j);
        if Le(RowKey(items, j), Fold(target)) {
          LeTransitive(RowKey(items, k + 1), RowKey(items, j), Fold(target));
        }
      }
    }
  }

  /** The sampled search answers every target like the plain scan exactly when the samples are
      separated from the words before them. */
  lemma SampledLookupIff(items: seq<Item>)
    requires SortedList(items)
    ensures (forall target, row | Chosen(items, target, row) ::
               Scan(items, SAMPLE_STRIDE * row, BlockEnd(items, row), target) == LinearScan(items, target))
       <==> Separated(items)
  {
    if Separated(items) {
      forall target, row | Chosen(items, target, row)
        ensures Scan(items, SAMPLE_STRIDE * row, BlockEnd(items, row), target) == LinearScan(items, target)
      {
        ScanPart(items, SAMPLE_STRIDE * row, BlockEnd(items, row), target);
        forall i | 0 <= i < |items| && items[i].word == target
          ensures SAMPLE_STRIDE * row <= i < BlockEnd(items, row)
        {
          ChosenBlockHolds(items, target, row, i);
        }
      }
    } else {
      var j :| 1 <= j < SampleCount(|items|) && Le(RowKey(items, j), Key(items, SAMPLE_STRIDE * j - 1));
      UnseparatedMisses(items, j);
    }
  }

  /** The word just before an unseparated sample is in the list and never found. */
  lemma UnseparatedMisses(items: seq<Item>, j: nat)
    requires SortedList(items) && 1 <= j < SampleCount(|items|)
    requires Le(RowKey(items, j), Key(items, SAMPLE_STRIDE * j - 1))
    ensures exists target, row ::
              Chosen(items, target, row)
              && Scan(items, SAMPLE_STRIDE * row, BlockEnd(items, row), target) != LinearScan(items, target)
  {
    var i := SAMPLE_STRIDE * j - 1;
    var target := items[i].word;
    forall h | 1 <= h <= j ensures Le(RowKey(items, h), Fold(target)) {
      RowKeysGrow(items, h, j);
      LeTransitive(RowKey(items, h), RowKey(items, j), Fold(target));
    }
    var row := ChosenExists(items, target, j);
    ScanPart(items, SAMPLE_STRIDE * row, BlockEnd(items, row), target);
    assert i < SAMPLE_STRIDE * row;
    assert Chosen(items, target, row)
           && Scan(items, SAMPLE_STRIDE * row, BlockEnd(items, row), target) != LinearScan(items, target);
  }

  /** Seventeen words that share their first sixteen letters. */
  function Crowded(): (items: seq<Item>)
    ensures |items| == 17
  {
    seq(17, (k: nat) requires k < 17 => Item(seq(16, _ => 0x61) + [0x61 + k], Zeros(8)))
  }

  lemma {:induction false} LeAfterCommon(common: bytes, a: bytes, b: bytes)
    ensures Le(common + a, common + b) == Le(a, b)
  {
    if common == [] {
      assert common + a == a && common + b == b;
    } else {
      LeAfterCommon(common[1..], a, b);
      assert (common + a)[1..] == common[1..] + a && (common + b)[1..] == common[1..] + b;
    }
  }

  lemma CrowdedKey(k: nat)
    requires k < 17
    ensures Key(Crowded(), k) == seq(16, _ => 0x61) + [0x61 + k]
  {
  }

  lemma CrowdedIsWellFormed()
    ensures WellFormed(Crowded(), 8)
  {
    forall item | item in Crowded() ensures 0 !in item.word && |item.payload| == 8 {
      var k :| 0 <= k < 17 && Crowded()[k] == item;
      assert item == Item(seq(16, _ => 0x61) + [0x61 + k], Zeros(8));
      assert forall i | 0 <= i < 17 :: item.word[i] != 0;
    }
  }

  lemma CrowdedIsSorted()
    ensures SortedList(Crowded())
  {
    var items, common: bytes := Crowded(), seq(16, _ => 0x61);
    CrowdedIsWellFormed();
    forall i, j | 0 <= i <= j < 17 ensures Le(Key(items, i), Key(items, j)) {
      CrowdedKey(i);
      CrowdedKey(j);
      LeAfterCommon(common, [0x61 + i], [0x61 + j]);
    }
    forall i, j | 0 <= i < j < 17 ensures items[i].word != items[j].word {
      assert items[i].word[16] != items[j].word[16];
    }
  }

  /** A sorted list the sampled search fails on: its sixteenth word is in the list and is not found. */
  lemma CrowdedIsNotSeparated()
    ensures SortedList(Crowded()) && !Separated(Crowded())
  {
    var items, common: bytes := Crowded(), seq(16, _ => 0x61);
    CrowdedIsSorted();
    CrowdedKey(15);
    CrowdedRow();
    LeAfterCommon(common, [], [0x61 + 15]);
    assert common + [] == common;
    assert SampleCount(17) == 2;
    assert Le(RowKey(items, 1), Key(items, SAMPLE_STRIDE * 1 - 1));
  }

  lemma CrowdedRow()
    ensures RowKey(Crowded(), 1) == seq(16, _ => 0x61)
  {
    FoldTake(Crowded()[16].word);
    CrowdedKey(16);
  }

  // ---------------------------------------------------------------- the search over table bytes

  lemma {:induction false} RowsLength(rows: seq<Row>)
    requires forall row :: row in rows ==> |row.prefix| == PREFIX_LEN
    ensures |RowsBytes(rows)| == 20 * |rows|
  {
    if rows != [] {
      assert rows[|rows| - 1] in rows;
      RowsLength(rows[..|rows| - 1]);
    }
  }

  lemma {:induction false} RowsSlice(rows: seq<Row>, j: nat)
    requires j < |rows| && forall row :: row in rows ==> |row.prefix| == PREFIX_LEN
    ensures |RowsBytes(rows)| == 20 * |rows|
    ensures RowsBytes(rows)[20 * j..20 * j + 20] == RowBytes(rows[j])
  {
    var n := |rows| - 1;
    var front := rows[..n];
    assert rows[n] in rows;
    RowsLength(front);
    if j < n { RowsSlice(front, j); }
    SliceOfSum(RowsBytes(front), RowBytes(rows[n]), 20 * j);
  }

  lemma SliceOfSum(a: bytes, b: bytes, from: nat)
    requires |b| == 20 && (from + 20 <= |a| || from == |a|)
    ensures (a + b)[from..from + 20] == if from == |a| then b else a[from..from + 20]
  {
  }

  /** A sample table of these items, as bytes. */
  ghost predicate IsTableFor(cspt: bytes, items: seq<Item>, rows: seq<Row>) {
    && IsSampleTable(rows, items, SampleCount(|items|)) && |rows| < 0x1_0000_0000
    && cspt == CsptHeader(|rows|) + RowsBytes(rows)
  }

  lemma HeaderReads(cspt: bytes, items: seq<Item>, rows: seq<Row>)
    requires IsTableFor(cspt, items, rows)
    ensures |cspt| >= CSPT_HEADER_SIZE && cspt[..4] == CSPT_MAGIC && cspt[5] == PREFIX_LEN
    ensures DecodeU32(cspt[8..12]) == |rows|
  {
    var h := CsptHeader(|rows|);
    assert cspt[..12] == h && h[8..12] == EncodeU32(|rows|) && h[..4] == CSPT_MAGIC && h[5] == PREFIX_LEN;
    assert cspt[8..12] == h[8..12] && cspt[..4] == h[..4];
    U32RoundTrip(|rows|);
  }

  /** Python's slice: whatever part of `[from, to)` the bytes have. */
  function Slice(b: bytes, from: nat, to: nat): bytes
    requires from <= to
  {
    if from >= |b| then [] else if to >= |b| then b[from..] else b[from..to]
  }

  function RowStart(prefixLen: nat, j: nat): nat { CSPT_HEADER_SIZE + j * (prefixLen + 4) }

  /** What the search compares for row `j` of the bytes. */
  function StoredKey(cspt: bytes, prefixLen: nat, j: nat): bytes {
    Fold(StripNuls(Slice(cspt, RowStart(prefixLen, j), RowStart(prefixLen, j) + prefixLen)))
  }

  /** The position in row `j` of the bytes; None where unpacking it raises. */
  function StoredPosition(cspt: bytes, prefixLen: nat, j: nat): Option<nat> {
    var at := RowStart(prefixLen, j) + prefixLen;
    if at + 4 > |cspt| then None else Some(DecodeU32(cspt[at..at + 4]))
  }

  lemma RowBytesReads(row: Row, word: bytes)
    requires row.prefix == Prefix(word) && 0 !in word
    ensures |RowBytes(row)| == 20 && StripNuls(RowBytes(row)[..PREFIX_LEN]) == Truncated(word)
    ensures DecodeU32(RowBytes(row)[PREFIX_LEN..20]) == row.pos
  {
    StripPadding(Truncated(word), PREFIX_LEN - |Truncated(word)|);
    assert RowBytes(row)[..PREFIX_LEN] == row.prefix;
    assert RowBytes(row)[PREFIX_LEN..20] == EncodeU32(row.pos);
    U32RoundTrip(row.pos);
  }

  lemma RowAt(cspt: bytes, items: seq<Item>, rows: seq<Row>, j: nat)
    requires IsTableFor(cspt, items, rows) && j < |rows|
    ensures RowStart(PREFIX_LEN, j) == 12 + 20 * j <= |cspt| - 20
    ensures cspt[12 + 20 * j..12 + 20 * j + 20] == RowBytes(rows[j])
  {
    RowsSlice(rows, j);
    assert cspt[CSPT_HEADER_SIZE..] == RowsBytes(rows);
    SliceOfSlice(cspt, CSPT_HEADER_SIZE, |cspt|, 20 * j, 20 * j + 20);
  }

  lemma StoredFields(cspt: bytes, j: nat, row: bytes)
    requires var off := 12 + 20 * j; off + 20 <= |cspt| && cspt[off..off + 20] == row
    ensures StoredKey(cspt, PREFIX_LEN, j) == Fold(StripNuls(row[..PREFIX_LEN]))
    ensures StoredPosition(cspt, PREFIX_LEN, j) == Some(DecodeU32(row[PREFIX_LEN..20]))
  {
    var off := 12 + 20 * j;
    assert RowStart(PREFIX_LEN, j) == off;
    SliceOfSlice(cspt, off, off + 20, 0, PREFIX_LEN);
    SliceOfSlice(cspt, off, off + 20, PREFIX_LEN, 20);
  }

  lemma RowReads(cspt: bytes, items: seq<Item>, rows: seq<Row>, j: nat)
    requires IsTableFor(cspt, items, rows) && j < |rows| && WellFormed(items, 8)
    ensures StoredKey(cspt, PREFIX_LEN, j) == RowKey(items, j)
    ensures StoredPosition(cspt, PREFIX_LEN, j) == Some(Position(items, SAMPLE_STRIDE * j))
  {
    assert items[SAMPLE_STRIDE * j] in items;
    RowAt(cspt, items, rows, j);
    RowBytesReads(rows[j], items[SAMPLE_STRIDE * j].word);
    StoredFields(cspt, j, RowBytes(rows[j]));
  }

  /** The bytes read back as the samples of a sorted list. */
  ghost predicate Samples(cspt: bytes, items: seq<Item>) {
    && SortedList(items)
    && forall j | 0 <= j < SampleCount(|items|) ::
         && StoredKey(cspt, PREFIX_LEN, j) == RowKey(items, j)
         && StoredPosition(cspt, PREFIX_LEN, j) == Some(Position(items, SAMPLE_STRIDE * j))
  }

  lemma TableSamples(cspt: bytes, items: seq<Item>, rows: seq<Row>)
    requires IsTableFor(cspt, items, rows) && SortedList(items)
    ensures Samples(cspt, items)
  {
    forall j | 0 <= j < SampleCount(|items|)
      ensures StoredKey(cspt, PREFIX_LEN, j) == RowKey(items, j)
      ensures StoredPosition(cspt, PREFIX_LEN, j) == Some(Position(items, SAMPLE_STRIDE * j))
    {
      RowReads(cspt, items, rows, j);
    }
  }

  /** Binary search for the last row whose stripped folded prefix is not above the folded target. */
  method FindRow(cspt: bytes, prefixLen: nat, count: nat, target: bytes, ghost items: seq<Item>)
    returns (lo: nat)
    requires count > 0
    ensures lo < count
    ensures Samples(cspt, items) && prefixLen == PREFIX_LEN && count == SampleCount(|items|) ==>
              Chosen(items, target, lo)
  {
    ghost var good := Samples(cspt, items) && prefixLen == PREFIX_LEN && count == SampleCount(|items|);
    lo := 0;
    var hi := count - 1;
    while lo < hi
      invariant 0 <= lo <= hi < count
      invariant good ==> Below(items, target, lo) && Above(items, target, hi)
    {
      var mid := lo + (hi - lo + 1) / 2;
      if !Le(StoredKey(cspt, prefixLen, mid), Fold(target)) {
        if good { AboveFrom(items, target, mid); }
        hi := mid - 1;
      } else {
        if good { BelowTo(items, target, mid); }
        lo := mid;
      }
    }
  }

  ghost predicate Below(items: seq<Item>, target: bytes, row: nat) {
    row < SampleCount(|items|) && forall j | 1 <= j <= row :: Le(RowKey(items, j), Fold(target))
  }

  ghost predicate Above(items: seq<Item>, target: bytes, row: nat) {
    forall j | row < j < SampleCount(|items|) :: !Le(RowKey(items, j), Fold(target))
  }

  lemma BelowTo(items: seq<Item>, target: bytes, row: nat)
    requires SortedList(items) && row < SampleCount(|items|) && Le(RowKey(items, row), Fold(target))
    ensures Below(items, target, row)
  {
    forall j | 1 <= j <= row ensures Le(RowKey(items, j), Fold(target)) {
      RowKeysGrow(items, j, row);
      LeTransitive(RowKey(items, j), RowKey(items, row), Fold(target));
    }
  }

  lemma AboveFrom(items: seq<Item>, target: bytes, row: nat)
    requires SortedList(items) && 0 < row < SampleCount(|items|) && !Le(RowKey(items, row), Fold(target))
    ensures Above(items, target, row - 1)
  {
    forall j | row <= j < SampleCount(|items|) ensures !Le(RowKey(items, j), Fold(target)) {
      RowKeysGrow(items, row, j);
      if Le(RowKey(items, j), Fold(target)) {
        LeTransitive(RowKey(items, row), RowKey(items, j), Fold(target));
      }
    }
  }

  /** Where row `lo` and the row after it send the scan; None where unpacking a position raises. */
  function RowRange(cspt: bytes, prefixLen: nat, count: nat, lo: nat, size: nat): Option<(nat, nat)> {
    match StoredPosition(cspt, prefixLen, lo)
    case None => None
    case Some(start) =>
      if lo + 1 >= count then Some((start, size))
      else match StoredPosition(cspt, prefixLen, lo + 1)
           case None => None
           case Some(end) => Some((start, end))
  }

  lemma RowRangeIsBlock(cspt: bytes, items: seq<Item>, row: nat)
    requires Samples(cspt, items) && row < SampleCount(|items|)
    ensures BlockEnd(items, row) <= |items|
    ensures RowRange(cspt, PREFIX_LEN, SampleCount(|items|), row, |EncodeAll(items)|)
         == Some((Position(items, SAMPLE_STRIDE * row), Position(items, BlockEnd(items, row))))
  {
    PositionEnds(items);
    assert StoredPosition(cspt, PREFIX_LEN, row) == Some(Position(items, SAMPLE_STRIDE * row));
    if row + 1 < SampleCount(|items|) {
      assert StoredPosition(cspt, PREFIX_LEN, row + 1) == Some(Position(items, SAMPLE_STRIDE * (row + 1)));
    }
  }

  /** The bytes of the block of the row chosen for the target. */
  ghost predicate IsBlock(r: Option<(nat, nat)>, items: seq<Item>, target: bytes) {
    exists row: nat ::
      Chosen(items, target, row) && BlockEnd(items, row) <= |items|
      && r == Some((Position(items, SAMPLE_STRIDE * row), Position(items, BlockEnd(items, row))))
  }

  /** The range of word-list bytes the sample table narrows the search to. */
  method NarrowBySamples(idx: bytes, cspt: bytes, target: bytes, ghost items: seq<Item>)
    returns (r: Option<(nat, nat)>)
    requires |cspt| >= CSPT_HEADER_SIZE
    ensures Samples(cspt, items) && cspt[5] == PREFIX_LEN && DecodeU32(cspt[8..12]) == SampleCount(|items|)
            && idx == EncodeAll(items) ==>
              if items == [] then r == Some((0, |idx|)) else IsBlock(r, items, target)
  {
    var prefixLen: nat := cspt[5];
    var count: nat := DecodeU32(cspt[8..12]);
    if count == 0 {
      return Some((0, |idx|));
    }
    var lo := FindRow(cspt, prefixLen, count, target, items);
    r := RowRange(cspt, prefixLen, count, lo, |idx|);
    if Samples(cspt, items) && prefixLen == PREFIX_LEN && count == SampleCount(|items|) {
      RowRangeIsBlock(cspt, items, lo);
    }
  }

  // ---------------------------------------------------------------- the search over the page table

  ghost function PageKey(items: seq<Item>, q: nat): bytes
    requires OFT_STRIDE * q < |items|
  {
    Key(items, OFT_STRIDE * q)
  }

  /** The page the walk settles on: it stops before the first page whose word is above the target. */
  ghost predicate ChosenPage(items: seq<Item>, target: bytes, page: nat) {
    && OFT_STRIDE * page <= |items|
    && (forall q | 1 <= q <= page && OFT_STRIDE * q < |items| :: Le(PageKey(items, q), Fold(target)))
    && (OFT_STRIDE * page == |items| ==> page == 0)
    && (OFT_STRIDE * (page + 1) < |items| ==> !Le(PageKey(items, page + 1), Fold(target)))
  }

  /** Each page starts strictly above the word just before it. */
  ghost predicate PagesSeparated(items: seq<Item>) {
    forall q | 1 <= q && OFT_STRIDE * q < |items| :: !Le(PageKey(items, q), Key(items, OFT_STRIDE * q - 1))
  }

  lemma PageHolds(items: seq<Item>, target: bytes, page: nat, i: nat)
    requires SortedList(items) && PagesSeparated(items) && ChosenPage(items, target, page)
    requires i < |items| && items[i].word == target
    ensures OFT_STRIDE * page <= i
  {
    if i < OFT_STRIDE * page {
      assert Le(PageKey(items, page), Key(items, i));
      LeTransitive(PageKey(items, page), Key(items, i), Key(items, OFT_STRIDE * page - 1));
      assert false;
    }
  }

  lemma {:induction false} ChosenPageExists(items: seq<Item>, target: bytes, k: nat) returns (page: nat)
    requires SortedList(items) && 1 <= k && OFT_STRIDE * k < |items|
    requires forall q | 1 <= q <= k :: Le(PageKey(items, q), Fold(target))
    ensures ChosenPage(items, target, page) && page >= k
    decreases |items| - k
  {
    if OFT_STRIDE * (k + 1) < |items| && Le(PageKey(items, k + 1), Fold(target)) {
      page := ChosenPageExists(items, target, k + 1);
    } else {
      page := k;
    }
  }

  /** The page walk answers every target like the plain scan exactly when the pages are separated. */
  lemma PageLookupIff(items: seq<Item>)
    requires SortedList(items)
    ensures (forall target, page | ChosenPage(items, target, page) ::
               Scan(items, OFT_STRIDE * page, |items|, target) == LinearScan(items, target))
       <==> PagesSeparated(items)
  {
    if PagesSeparated(items) {
      forall target, page | ChosenPage(items, target, page)
        ensures Scan(items, OFT_STRIDE * page, |items|, target) == LinearScan(items, target)
      {
        ScanPart(items, OFT_STRIDE * page, |items|, target);
        forall i | 0 <= i < |items| && items[i].word == target ensures OFT_STRIDE * page <= i {
          PageHolds(items, target, page, i);
        }
      }
    } else {
      var q :| 1 <= q && OFT_STRIDE * q < |items| && Le(PageKey(items, q), Key(items, OFT_STRIDE * q - 1));
      var page := UnseparatedPageMisses(items, q);
    }
  }

  /** The word just before an unseparated page is in the list and never found. */
  lemma UnseparatedPageMisses(items: seq<Item>, q: nat) returns (page: nat)
    requires SortedList(items) && 1 <= q && OFT_STRIDE * q < |items|
    requires Le(PageKey(items, q), Key(items, OFT_STRIDE * q - 1))
    ensures ChosenPage(items, items[OFT_STRIDE * q - 1].word, page)
    ensures Scan(items, OFT_STRIDE * page, |items|, items[OFT_STRIDE * q - 1].word)
         != LinearScan(items, items[OFT_STRIDE * q - 1].word)
  {
    var i := OFT_STRIDE * q - 1;
    var target := items[i].word;
    forall h | 1 <= h <= q ensures Le(PageKey(items, h), Fold(target)) {
      LeTransitive(PageKey(items, h), PageKey(items, q), Fold(target));
    }
    page := ChosenPageExists(items, target, q);
    ScanPart(items, OFT_STRIDE * page, |items|, target);
    assert i < OFT_STRIDE * page;
  }

  ghost predicate Pages(oft: bytes, idx: bytes, items: seq<Item>) {
    SortedList(items) && idx == EncodeAll(items) && IsPageTable(Some(oft), items)
  }

  /** What the table's words read as. */
  lemma PageWord(oft: bytes, items: seq<Item>, i: nat)
    requires IsPageTable(Some(oft), items) && i <= |items| / OFT_STRIDE
    ensures OFT_HEADER_SIZE + 4 * i + 4 <= |oft| && |oft| == OFT_HEADER_SIZE + 4 * (|items| / OFT_STRIDE + 1)
    ensures DecodeU32(oft[OFT_HEADER_SIZE..][4 * i..4 * i + 4])
         == if i < |items| / OFT_STRIDE then Position(items, OFT_STRIDE * (i + 1)) else |EncodeAll(items)|
  {
    var values: seq<u32> :| values == PageTable(items) && oft == OFT_HEADER + Words(values);
    assert oft[OFT_HEADER_SIZE..] == Words(values);
    PageStartsExact(items, |items|);
    WordAt(values, i);
  }

  /** Whether the entry at `pos` has a word that is not above the target. */
  method NotAbove(idx: bytes, pos: nat, target: bytes, ghost items: seq<Item>, ghost k: nat) returns (r: bool)
    ensures r ==> pos < |idx|
    ensures WellFormed(items, 8) && idx == EncodeAll(items) && k < |items| && pos == Position(items, k) ==>
              r == Le(Key(items, k), Fold(target))
  {
    if pos >= |idx| {
      if WellFormed(items, 8) && k < |items| { HasNul(items, 8, k); }
      return false;
    }
    var nul := NextNul(idx, pos);
    if WellFormed(items, 8) && idx == EncodeAll(items) && k < |items| && pos == Position(items, k) {
      HasNul(items, 8, k);
      if nul.Some? { WordEnds(items, 8, k, nul.value); }
    }
    return nul.Some? && Le(Fold(idx[pos..nul.value]), Fold(target));
  }

  ghost predicate UpToPage(items: seq<Item>, target: bytes, page: nat) {
    && OFT_STRIDE * page <= |items| && (OFT_STRIDE * page == |items| ==> page == 0)
    && forall q | 1 <= q <= page && OFT_STRIDE * q < |items| :: Le(PageKey(items, q), Fold(target))
  }

  lemma NextPage(items: seq<Item>, target: bytes, page: nat)
    requires UpToPage(items, target, page) && OFT_STRIDE * (page + 1) < |items|
    requires Le(PageKey(items, page + 1), Fold(target))
    ensures UpToPage(items, target, page + 1)
  {
  }

  method PageNotAbove(idx: bytes, oft: bytes, table: bytes, target: bytes, i: nat, ghost items: seq<Item>)
    returns (pos: nat, low: bool)
    requires 4 * i + 4 <= |table| && |oft| > OFT_HEADER_SIZE && table == oft[OFT_HEADER_SIZE..]
    ensures Pages(oft, idx, items) ==> low == (OFT_STRIDE * (i + 1) < |items| && Le(PageKey(items, i + 1), Fold(target)))
    ensures Pages(oft, idx, items) && low ==> pos == Position(items, OFT_STRIDE * (i + 1))
  {
    pos := DecodeU32(table[4 * i..4 * i + 4]);
    if Pages(oft, idx, items) {
      PageWord(oft, items, 0);
      PageWord(oft, items, i);
      PositionEnds(items);
    }
    low := NotAbove(idx, pos, target, items, OFT_STRIDE * (i + 1));
  }

  /** The start of the page chosen for the target. */
  ghost predicate IsPageStart(pos: nat, items: seq<Item>, target: bytes) {
    exists page: nat :: ChosenPage(items, target, page) && pos == Position(items, OFT_STRIDE * page)
  }

  /** Walks the page table for the last page to start at or below the target. */
  method FindPage(idx: bytes, oft: bytes, target: bytes, ghost items: seq<Item>)
    returns (best: nat)
    ensures Pages(oft, idx, items) ==> IsPageStart(best, items, target)
  {
    ghost var good := Pages(oft, idx, items);
    var table := if |oft| > OFT_HEADER_SIZE then oft[OFT_HEADER_SIZE..] else [];
    ghost var page := 0;
    best := 0;
    PositionEnds(items);
    for i := 0 to |table| / 4
      invariant good ==> page == i && UpToPage(items, target, page) && best == Position(items, OFT_STRIDE * page)
    {
      var pos, low := PageNotAbove(idx, oft, table, target, i, items);
      if !low {
        break;
      }
      if good { NextPage(items, target, page); }
      best := pos;
      page := page + 1;
    }
    if good {
      PageWord(oft, items, 0);
      assert ChosenPage(items, target, page);
    }
  }

  // ---------------------------------------------------------------- the whole lookup

  /** A table the lookup takes on sight of its length and first bytes. */
  predicate Usable(cspt: Option<bytes>) {
    cspt.Some? && |cspt.value| >= CSPT_HEADER_SIZE && cspt.value[..4] == CSPT_MAGIC
  }

  /** The tables' own words settle the answer: it is that of the plain scan. */
  ghost predicate TablesServe(idx: bytes, oft: Option<bytes>, cspt: Option<bytes>, items: seq<Item>) {
    && WellFormed(items, 8) && idx == EncodeAll(items)
    && (if Usable(cspt) then SortedList(items) && Separated(items) && IsCspt(cspt, items)
        else oft.Some? ==> Pages(oft.value, idx, items) && PagesSeparated(items))
  }

  /** Looks a word up in a list of any bytes with any tables: an answer always stands beside that very
      word, and with the tables built for a sorted, separated list it is the answer of the plain scan. */
  method ScanIdx(idx: bytes, oft: Option<bytes>, cspt: Option<bytes>, target: bytes, ghost items: seq<Item>)
    returns (r: Result)
    ensures r.Found? ==> IsExactMatch(idx, target, r)
    ensures TablesServe(idx, oft, cspt, items) ==> r == LinearScan(items, target)
  {
    var start, end: nat := 0, |idx|;
    ghost var a, b := 0, |items|;
    PositionEnds(items);
    if Usable(cspt) {
      ghost var serve := TablesServe(idx, oft, cspt, items);
      if serve { SamplesServe(cspt, items); }
      var range := NarrowBySamples(idx, cspt.value, target, items);
      if range.None? {
        return Raised;
      }
      start, end := range.value.0, range.value.1;
      if serve && items != [] {
        var row: nat :| Chosen(items, target, row) && BlockEnd(items, row) <= |items|
                        && range == Some((Position(items, SAMPLE_STRIDE * row), Position(items, BlockEnd(items, row))));
        a, b := SAMPLE_STRIDE * row, BlockEnd(items, row);
        SampledLookupIff(items);
      }
    } else if oft.Some? {
      start := FindPage(idx, oft.value, target, items);
      if TablesServe(idx, oft, cspt, items) {
        var page: nat :| ChosenPage(items, target, page) && start == Position(items, OFT_STRIDE * page);
        a := OFT_STRIDE * page;
        PageLookupIff(items);
      }
    }
    r := ScanBytes(idx, start, end, target);
    AnswerIsExact(idx, start, end, target);
    if TablesServe(idx, oft, cspt, items) {
      ByteScanIsScan(idx, items, a, b, target);
    }
  }

  lemma SamplesServe(cspt: Option<bytes>, items: seq<Item>)
    requires IsCspt(cspt, items) && SortedList(items)
    ensures Usable(cspt) && Samples(cspt.value, items)
    ensures cspt.value[5] == PREFIX_LEN && DecodeU32(cspt.value[8..12]) == SampleCount(|items|)
  {
    var rows :| IsSampleTable(rows, items, SampleCount(|items|)) && |rows| < 0x1_0000_0000
                && cspt == Some(CsptHeader(|rows|) + RowsBytes(rows));
    TableSamples(cspt.value, items, rows);
    HeaderReads(cspt.value, items, rows);
  }
}

/** StarDict word lists and the two index files built over them: the page table that notes every
    32nd entry and the sample table that notes every 16th with a prefix of its word. */
module DictionaryIndex {
  import opened Bytes
  import opened Wrappers

  // ---------------------------------------------------------------- word lists

  /** One entry: a NUL-free word and a payload of fixed length (8 in an index, 4 in a synonym file). */
  datatype Item = Item(word: bytes, payload: bytes)

  ghost predicate WellFormed(items: seq<Item>, skip: nat) {
    forall item :: item in items ==> 0 !in item.word && |item.payload| == skip
  }

  function Encode(item: Item): bytes { item.word + [0] + item.payload }

  function EncodeAll(items: seq<Item>): bytes {
    if items == [] then [] else EncodeAll(items[..|items| - 1]) + Encode(items[|items| - 1])
  }

  /** Where entry `k` starts. */
  function Position(items: seq<Item>, k: nat): nat
    requires k <= |items|
  {
    |EncodeAll(items[..k])|
  }

  lemma {:induction false} EncodeAllSplit(items: seq<Item>, k: nat)
    requires k <= |items|
    ensures EncodeAll(items) == EncodeAll(items[..k]) + EncodeAll(items[k..])
    decreases |items|
  {
    if k == |items| {
      assert items[..k] == items && items[k..] == [];
    } else {
      var front := items[..|items| - 1];
      EncodeAllSplit(front, k);
      assert front[..k] == items[..k] && items[k..][..|items[k..]| - 1] == front[k..];
      assert items[k..][|items[k..]| - 1] == items[|items| - 1];
    }
  }

  lemma EncodeAllOne(items: seq<Item>)
    requires items != []
    ensures EncodeAll(items) == Encode(items[0]) + EncodeAll(items[1..])
  {
    EncodeAllSplit(items, 1);
    assert items[..1][..0] == [] && EncodeAll(items[..1]) == [] + Encode(items[0]);
  }

  lemma Middle(a: bytes, b: bytes, c: bytes)
    ensures (a + b + c)[|a|..|a| + |b|] == b && (a + b + c)[|a|..] == b + c
  {
  }

  lemma SplitAround(items: seq<Item>, k: nat)
    requires k < |items|
    ensures EncodeAll(items) == EncodeAll(items[..k]) + Encode(items[k]) + EncodeAll(items[k + 1..])
    ensures EncodeAll(items[k..]) == Encode(items[k]) + EncodeAll(items[k + 1..])
  {
    EncodeAllSplit(items, k);
    SuffixSplits(items, k);
    Reassociate(EncodeAll(items[..k]), Encode(items[k]), EncodeAll(items[k + 1..]));
  }

  lemma SuffixSplits(items: seq<Item>, k: nat)
    requires k < |items|
    ensures EncodeAll(items[k..]) == Encode(items[k]) + EncodeAll(items[k + 1..])
  {
    EncodeAllOne(items[k..]);
    assert items[k..][0] == items[k] && items[k..][1..] == items[k + 1..];
  }

  lemma NextPosition(items: seq<Item>, k: nat)
    requires k < |items|
    ensures Position(items, k + 1) == Position(items, k) + |Encode(items[k])|
  {
    assert items[..k + 1][..k] == items[..k] && items[..k + 1][k] == items[k];
  }

  /** The bytes at an entry's position are the entry. */
  lemma EntryAt(items: seq<Item>, k: nat)
    requires k < |items|
    ensures var data, p := EncodeAll(items), Position(items, k);
            && Position(items, k + 1) == p + |Encode(items[k])| <= |data|
            && data[p..p + |Encode(items[k])|] == Encode(items[k])
  {
    SplitAround(items, k);
    NextPosition(items, k);
    Middle(EncodeAll(items[..k]), Encode(items[k]), EncodeAll(items[k + 1..]));
  }

  lemma PositionsGrow(items: seq<Item>, i: nat, j: nat)
    requires i <= j <= |items|
    ensures Position(items, i) <= Position(items, j)
    ensures i < j ==> Position(items, i) < Position(items, j)
    decreases j - i
  {
    if i < j {
      EntryAt(items, i);
      PositionsGrow(items, i + 1, j);
    }
  }

  lemma PositionEnds(items: seq<Item>)
    ensures Position(items, 0) == 0 && Position(items, |items|) == |EncodeAll(items)|
  {
    assert items[..0] == [] && items[..|items|] == items;
  }

  // ---------------------------------------------------------------- finding the next NUL

  ghost predicate IsNextNul(data: bytes, pos: nat, z: nat) {
    pos <= z < |data| && data[z] == 0 && forall i | pos <= i < z :: data[i] != 0
  }

  /** `data.index(b"\x00", pos)`; None stands for the ValueError. */
  method NextNul(data: bytes, pos: nat) returns (r: Option<nat>)
    ensures r.Some? ==> IsNextNul(data, pos, r.value)
    ensures r.None? ==> forall i | pos <= i < |data| :: data[i] != 0
  {
    var i := pos;
    while i < |data|
      invariant pos <= i
      invariant forall k | pos <= k < i && k < |data| :: data[k] != 0
    {
      if data[i] == 0 {
        return Some(i);
      }
      i := i + 1;
    }
    return None;
  }

  lemma PieceNul(data: bytes, p: nat, word: bytes, payload: bytes, z: nat)
    requires var e := word + [0] + payload; p + |e| <= |data| && data[p..p + |e|] == e
    requires 0 !in word && IsNextNul(data, p, z)
    ensures z == p + |word| && z + 1 + |payload| <= |data|
    ensures data[p..z] == word && data[z + 1..z + 1 + |payload|] == payload
  {
    var e, n := word + [0] + payload, |word|;
    var end := p + |e|;
    SliceOfSlice(data, p, end, 0, n);
    SliceOfSlice(data, p, end, n, n + 1);
    SliceOfSlice(data, p, end, n + 1, |e|);
    assert e[..n] == word && e[n..n + 1] == [0] && e[n + 1..] == payload;
    assert data[p + n] == data[p + n..p + n + 1][0] == 0;
    assert data[p..p + n] == word && data[p + n + 1..end] == payload;
  }

  /** In a well-formed list the next NUL from an entry's position ends its word. */
  lemma WordEnds(items: seq<Item>, skip: nat, k: nat, z: nat)
    requires WellFormed(items, skip) && k < |items|
    requires IsNextNul(EncodeAll(items), Position(items, k), z)
    ensures z == Position(items, k) + |items[k].word|
    ensures Position(items, k + 1) == z + 1 + skip <= |EncodeAll(items)|
    ensures EncodeAll(items)[Position(items, k)..z] == items[k].word
    ensures EncodeAll(items)[z + 1..z + 1 + skip] == items[k].payload
  {
    EntryAt(items, k);
    assert items[k] in items;
    PieceNul(EncodeAll(items), Position(items, k), items[k].word, items[k].payload, z);
  }

  lemma HasNul(items: seq<Item>, skip: nat, k: nat)
    requires WellFormed(items, skip) && k < |items|
    ensures var z := Position(items, k) + |items[k].word|;
            z < |EncodeAll(items)| && EncodeAll(items)[z] == 0
  {
    EntryAt(items, k);
    NulAfterWord(EncodeAll(items), Position(items, k), items[k]);
  }

  lemma NulAfterWord(data: bytes, p: nat, item: Item)
    requires p + |Encode(item)| <= |data| && data[p..p + |Encode(item)|] == Encode(item)
    ensures data[p + |item.word|] == 0
  {
    assert data[p..p + |Encode(item)|][|item.word|] == 0;
  }

  // ---------------------------------------------------------------- the page table

  const OFT_STRIDE := 32
  const OFT_HEADER: bytes := [0x53, 0x74, 0x61, 0x72, 0x44, 0x69, 0x63, 0x74, 0x27, 0x73, 0x20, 0x43, 0x61, 0x63, 0x68,
    0x65, 0x2C, 0x20, 0x56, 0x65, 0x72, 0x73, 0x69, 0x6F, 0x6E, 0x3A, 0x20, 0x30, 0x2E, 0x32,
    0xC1, 0xD1, 0xA4, 0x51, 0x00, 0x00, 0x00, 0x00]
  const OFT_HEADER_SIZE := 38

  /** Little-endian 32-bit words, one after the other. */
  function Words(values: seq<u32>): (b: bytes)
    ensures |b| == 4 * |values|
  {
    if values == [] then [] else Words(values[..|values| - 1]) + EncodeU32(values[|values| - 1])
  }

  lemma {:induction false} WordAt(values: seq<u32>, k: nat)
    requires k < |values|
    ensures DecodeU32(Words(values)[4 * k..4 * k + 4]) == values[k]
  {
    var n := |values| - 1;
    if k == n {
      assert Words(values)[4 * k..4 * k + 4] == EncodeU32(values[k]);
      U32RoundTrip(values[k]);
    } else {
      WordAt(values[..n], k);
      assert Words(values)[4 * k..4 * k + 4] == Words(values[..n])[4 * k..4 * k + 4];
    }
  }

  /** Positions of entries 32, 64, ... up to entry `k`. */
  ghost function PageStarts(items: seq<Item>, k: nat): seq<nat>
    requires k <= |items|
  {
    if k == 0 then []
    else PageStarts(items, k - 1) + (if k % OFT_STRIDE == 0 then [Position(items, k)] else [])
  }

  lemma {:induction false} PageStartsExact(items: seq<Item>, k: nat)
    requires k <= |items|
    ensures |PageStarts(items, k)| == k / OFT_STRIDE
    ensures forall j | 0 <= j < k / OFT_STRIDE :: PageStarts(items, k)[j] == Position(items, OFT_STRIDE * (j + 1))
  {
    if k > 0 { PageStartsExact(items, k - 1); }
  }

  /** The table: page starts, then the total size. */
  ghost function PageTable(items: seq<Item>): seq<nat> {
    PageStarts(items, |items|) + [|EncodeAll(items)|]
  }

  ghost predicate IsPageTable(r: Option<bytes>, items: seq<Item>) {
    exists values: seq<u32> :: values == PageTable(items) && r == Some(OFT_HEADER + Words(values))
  }

  /** Builds the page table; None where Python raises, for a missing NUL or a position past 32 bits.
      For a well-formed list of less than 4 GiB the result is its page table. */
  method BuildOft(data: bytes, skip: nat, ghost items: seq<Item>) returns (r: Option<bytes>)
    ensures WellFormed(items, skip) && data == EncodeAll(items) && |data| < 0x1_0000_0000 ==> IsPageTable(r, items)
  {
    ghost var good := WellFormed(items, skip) && data == EncodeAll(items) && |data| < 0x1_0000_0000;
    var offsets: seq<nat> := [];
    var entryCount := 0;
    var pos := 0;
    PositionEnds(items);
    while pos < |data|
      invariant good ==>
                  && entryCount <= |items| && pos == Position(items, entryCount)
                  && offsets == PageStarts(items, entryCount)
      invariant entryCount >= 0
      decreases |data| - pos
    {
      if good && entryCount == |items| { assert false; }
      var nul := NextNul(data, pos);
      if nul.None? {
        if good { HasNul(items, skip, entryCount); }
        return None;
      }
      if good { WordEnds(items, skip, entryCount, nul.value); }
      pos := nul.value + 1 + skip;
      entryCount := entryCount + 1;
      if entryCount % OFT_STRIDE == 0 {
        offsets := offsets + [pos];
      }
    }
    if good && entryCount < |items| {
      PositionsGrow(items, entryCount, |items|);
      assert false;
    }
    offsets := offsets + [|data|];
    if good {
      assert offsets == PageTable(items);
      PagesFit(items);
    }
    if exists v :: v in offsets && v >= 0x1_0000_0000 {
      return None;
    }
    assert forall i | 0 <= i < |offsets| :: offsets[i] in offsets;
    var values: seq<u32> := offsets;
    return Some(OFT_HEADER + Words(values));
  }

  lemma PagesFit(items: seq<Item>)
    ensures forall v :: v in PageTable(items) ==> v <= |EncodeAll(items)|
  {
    PageStartsExact(items, |items|);
    PositionEnds(items);
    forall v | v in PageTable(items) ensures v <= |EncodeAll(items)| {
      var i :| 0 <= i < |PageTable(items)| && PageTable(items)[i] == v;
      if i < |items| / OFT_STRIDE {
        assert v == Position(items, OFT_STRIDE * (i + 1));
        PositionsGrow(items, OFT_STRIDE * (i + 1), |items|);
      }
    }
  }

  // ---------------------------------------------------------------- the sample table

  const PREFIX_LEN := 16
  const SAMPLE_STRIDE := 16
  const CSPT_HEADER_SIZE := 12
  const CSPT_MAGIC: bytes := [0x43, 0x53, 0x50, 0x54]

  /** A sampled word's first bytes, filled up with NULs, and its position. */
  datatype Row = Row(prefix: bytes, pos: u32)

  function Truncated(word: bytes): (r: bytes)
    ensures |r| <= PREFIX_LEN && r <= word
  {
    if |word| > PREFIX_LEN then word[..PREFIX_LEN] else word
  }

  function Prefix(word: bytes): (r: bytes)
    ensures |r| == PREFIX_LEN
  {
    Truncated(word) + Zeros(PREFIX_LEN - |Truncated(word)|)
  }

  function RowBytes(row: Row): bytes { row.prefix + EncodeU32(row.pos) }

  function RowsBytes(rows: seq<Row>): bytes {
    if rows == [] then [] else RowsBytes(rows[..|rows| - 1]) + RowBytes(rows[|rows| - 1])
  }

  function CsptHeader(count: u32): (h: bytes)
    ensures |h| == CSPT_HEADER_SIZE
  {
    CSPT_MAGIC + [1, PREFIX_LEN] + EncodeU16(SAMPLE_STRIDE) + EncodeU32(count)
  }

  function SampleCount(n: nat): nat { (n + SAMPLE_STRIDE - 1) / SAMPLE_STRIDE }

  /** Row `j` samples entry `16 j`. */
  ghost predicate IsSampleTable(rows: seq<Row>, items: seq<Item>, count: nat) {
    && |rows| == count <= SampleCount(|items|)
    && forall j | 0 <= j < count ::
         rows[j].prefix == Prefix(items[SAMPLE_STRIDE * j].word)
         && rows[j].pos == Position(items, SAMPLE_STRIDE * j)
  }

  ghost predicate IsCspt(r: Option<bytes>, items: seq<Item>) {
    exists rows :: IsSampleTable(rows, items, SampleCount(|items|)) && |rows| < 0x1_0000_0000
                   && r == Some(CsptHeader(|rows|) + RowsBytes(rows))
  }

  /** The page offsets a table holds: zero, then all its words but the last. */
  method PageOffsets(oft: bytes, ghost items: seq<Item>) returns (pages: seq<nat>)
    ensures |pages| > 0
    ensures IsPageTable(Some(oft), items) ==>
              |pages| == |items| / OFT_STRIDE + 1
              && forall i | 0 <= i < |pages| :: pages[i] == Position(items, OFT_STRIDE * i)
  {
    var table := if |oft| > OFT_HEADER_SIZE then oft[OFT_HEADER_SIZE..] else [];
    var count := |table| / 4;
    if count > 0 {
      count := count - 1;
    }
    pages := ReadWords(table, count);
    if IsPageTable(Some(oft), items) {
      ghost var values: seq<u32> :| values == PageTable(items) && oft == OFT_HEADER + Words(values);
      assert table == Words(values);
      PageStartsExact(items, |items|);
      PositionEnds(items);
      TableWords(table, items, values);
    }
  }

  lemma TableWords(table: bytes, items: seq<Item>, values: seq<u32>)
    requires values == PageTable(items) && table == Words(values)
    ensures |table| == 4 * (|items| / OFT_STRIDE + 1)
    ensures forall i | 0 <= i < |items| / OFT_STRIDE ::
              DecodeU32(table[4 * i..4 * i + 4]) == Position(items, OFT_STRIDE * (i + 1))
  {
    PageStartsExact(items, |items|);
    forall i | 0 <= i < |items| / OFT_STRIDE
      ensures DecodeU32(table[4 * i..4 * i + 4]) == Position(items, OFT_STRIDE * (i + 1))
    {
      WordAt(values, i);
    }
  }

  /** Zero, then the first `count` words of a table. */
  method ReadWords(table: bytes, count: nat) returns (pages: seq<nat>)
    requires 4 * count <= |table|
    ensures |pages| == count + 1 && pages[0] == 0
    ensures forall i | 1 <= i <= count :: pages[i] == DecodeU32(table[4 * (i - 1)..4 * (i - 1) + 4])
  {
    pages := [0];
    for i := 0 to count
      invariant |pages| == i + 1 && pages[0] == 0
      invariant forall k | 1 <= k <= i :: pages[k] == DecodeU32(table[4 * (k - 1)..4 * (k - 1) + 4])
    {
      pages := pages + [DecodeU32(table[4 * i..4 * i + 4])];
    }
  }

  /** Moves over up to sixteen entries; a missing NUL puts the cursor at the end. */
  method SkipEntries(src: bytes, start: nat, skip: nat, ghost items: seq<Item>, ghost k: nat)
    returns (scanPos: nat)
    requires k <= |items|
    ensures WellFormed(items, skip) && src == EncodeAll(items) && start == Position(items, k) ==>
              scanPos == Position(items, if k + SAMPLE_STRIDE <= |items| then k + SAMPLE_STRIDE else |items|)
  {
    ghost var good := WellFormed(items, skip) && src == EncodeAll(items) && start == Position(items, k);
    scanPos := start;
    PositionEnds(items);
    for i := 0 to 16
      invariant good ==> scanPos == Position(items, if k + i <= |items| then k + i else |items|)
      invariant good ==> k + i <= |items|
    {
      var nul := NextNul(src, scanPos);
      if nul.None? {
        if good && k + i < |items| { HasNul(items, skip, k + i); }
        return |src|;
      }
      if good {
        if k + i == |items| { assert false; }
        WordEnds(items, skip, k + i, nul.value);
      }
      scanPos := nul.value + 1 + skip;
    }
  }

  /** The list, its bytes, and a size the tables can address. */
  ghost predicate Lists(src: bytes, items: seq<Item>, skip: nat) {
    WellFormed(items, skip) && src == EncodeAll(items) && |src| < 0x1_0000_0000
  }

  datatype Sample = Sampled(row: Row) | NoWord | TooFar

  /** Samples the entry at `pos`: no NUL may end its word, or the position may need more than 32 bits. */
  method SampleAt(src: bytes, pos: nat, skip: nat, ghost items: seq<Item>, ghost k: nat) returns (s: Sample)
    ensures k < |items| && Lists(src, items, skip) && pos == Position(items, k) ==>
              s.Sampled? && s.row.prefix == Prefix(items[k].word) && s.row.pos == pos
  {
    var nul := NextNul(src, pos);
    if k < |items| && Lists(src, items, skip) && pos == Position(items, k) {
      HasNul(items, skip, k);
      if nul.Some? { WordEnds(items, skip, k, nul.value); }
    }
    if nul.None? {
      return NoWord;
    }
    if pos >= 0x1_0000_0000 {
      return TooFar;
    }
    return Sampled(Row(Prefix(src[pos..nul.value]), pos));
  }

  function Least(a: nat, b: nat): nat { if a < b then a else b }

  lemma SampleAppended(rows: seq<Row>, row: Row, items: seq<Item>, k: nat)
    requires IsSampleTable(rows, items, k) && k < SampleCount(|items|)
    requires row.prefix == Prefix(items[SAMPLE_STRIDE * k].word) && row.pos == Position(items, SAMPLE_STRIDE * k)
    ensures IsSampleTable(rows + [row], items, k + 1)
  {
  }

  /** Samples a page: its first entry and, if it has that many, its seventeenth. */
  method SamplePage(src: bytes, pos: nat, skip: nat, rows: seq<Row>, ghost items: seq<Item>, ghost i: nat)
    returns (rows': seq<Row>, next: PageOutcome)
    ensures Lists(src, items, skip) && OFT_STRIDE * i <= |items| && pos == Position(items, OFT_STRIDE * i)
            && IsSampleTable(rows, items, Least(2 * i, SampleCount(|items|))) ==>
              && IsSampleTable(rows', items, Least(2 * i + 2, SampleCount(|items|)))
              && (next == NextPage || (next == LastPage && OFT_STRIDE * i == |items|))
  {
    ghost var good := Lists(src, items, skip) && OFT_STRIDE * i <= |items| && pos == Position(items, OFT_STRIDE * i)
                      && IsSampleTable(rows, items, Least(2 * i, SampleCount(|items|)));
    PositionEnds(items);
    if good && OFT_STRIDE * i < |items| { PositionsGrow(items, OFT_STRIDE * i, |items|); }
    if pos >= |src| {
      return rows, LastPage;
    }
    var first := SampleAt(src, pos, skip, items, OFT_STRIDE * i);
    if !first.Sampled? {
      return rows, if first.NoWord? then LastPage else Failed;
    }
    rows' := rows + [first.row];
    if good { SampleAppended(rows, first.row, items, 2 * i); }
    var scanPos := SkipEntries(src, pos, skip, items, if good then OFT_STRIDE * i else 0);
    ghost var k := OFT_STRIDE * i + SAMPLE_STRIDE;
    if good && k < |items| { PositionsGrow(items, k, |items|); }
    if scanPos >= |src| {
      return rows', NextPage;
    }
    var second := SampleAt(src, scanPos, skip, items, k);
    if !second.Sampled? {
      return rows', if second.NoWord? then NextPage else Failed;
    }
    if good { SampleAppended(rows', second.row, items, 2 * i + 1); }
    return rows' + [second.row], NextPage;
  }

  datatype PageOutcome = NextPage | LastPage | Failed

  /** Builds the sample table from a word list and its page table; None where Python raises. For a
      well-formed list of less than 4 GiB with its own page table the rows are exact. */
  method BuildCspt(src: bytes, oft: bytes, skip: nat, ghost items: seq<Item>) returns (r: Option<bytes>)
    ensures Lists(src, items, skip) && IsPageTable(Some(oft), items) ==> IsCspt(r, items)
  {
    ghost var good := Lists(src, items, skip) && IsPageTable(Some(oft), items);
    var pages := PageOffsets(oft, items);
    var rows: seq<Row> := [];
    var i := 0;
    while i < |pages|
      invariant 0 <= i <= |pages|
      invariant good ==> IsSampleTable(rows, items, Least(2 * i, SampleCount(|items|)))
    {
      var next;
      rows, next := SamplePage(src, pages[i], skip, rows, items, i);
      if next == Failed {
        return None;
      }
      if next == LastPage {
        break;
      }
      i := i + 1;
    }
    if good {
      assert IsSampleTable(rows, items, SampleCount(|items|));
      SampleCountFits(items);
    }
    if |rows| >= 0x1_0000_0000 {
      return None;
    }
    return Some(CsptHeader(|rows|) + RowsBytes(rows));
  }

  lemma {:induction false} SampleCountFits(items: seq<Item>)
    ensures |items| <= |EncodeAll(items)|
    ensures SampleCount(|items|) <= |items|
  {
    if items != [] { SampleCountFits(items[..|items| - 1]); }
  }
}

/** The clipping file of a book that is not a PDF: records followed by their texts, which stay on the
    card and are found again through an offset and a length. */
module ClippingCodec {
  import opened Bytes
  import opened Wrappers

  const LEGACY_VERSION := 1
  const VERSION := 3
  const CHAPTER_TITLE_MAX := 48
  const TEXT_MAX := 512
  const MAX_PER_BOOK := 256
  const INT_MAX := 0x7FFF_FFFF

  type Version = v: int | LEGACY_VERSION <= v <= VERSION witness VERSION

  /** A C string in a fixed buffer. */
  type ChapterTitle = s: bytes | |s| == CHAPTER_TITLE_MAX && s[CHAPTER_TITLE_MAX - 1] == 0 witness Zeros(CHAPTER_TITLE_MAX)

  /** A string the reader accepts. */
  type Text = s: bytes | |s| <= INT_MAX

  datatype Fields = Fields(
    spineIndex: u16, startPage: u16, endPage: u16, pageCount: u16, startWord: u16, endWord: u16, wordCount: u16,
    paragraph: u16, timestamp: u32, layoutSignature: u32, chapterTitle: ChapterTitle)

  /** A clipping in memory: its text is `length` bytes from `offset` on in the store file. */
  datatype Clipping = Clipping(fields: Fields, textOffset: u32, textLength: u16)

  /** A clipping with its text: what the user sees. */
  datatype Excerpt = Excerpt(fields: Fields, text: bytes)

  predicate Bounded(e: Excerpt) { |e.text| <= TEXT_MAX }

  // ---------------------------------------------------------------- meaning

  predicate TextInside(data: bytes, c: Clipping) { c.textOffset + c.textLength <= |data| && c.textLength <= TEXT_MAX }

  function TextAt(data: bytes, c: Clipping): bytes
    requires TextInside(data, c)
  {
    data[c.textOffset..c.textOffset + c.textLength]
  }

  ghost predicate Resident(data: bytes, list: seq<Clipping>) {
    forall i | 0 <= i < |list| :: TextInside(data, list[i])
  }

  ghost function Meaning(data: bytes, list: seq<Clipping>): (es: seq<Excerpt>)
    requires Resident(data, list)
    ensures |es| == |list|
  {
    seq(|list|, i requires 0 <= i < |list| => Excerpt(list[i].fields, TextAt(data, list[i])))
  }

  // ---------------------------------------------------------------- writing

  function FourWords(a: u16, b: u16, c: u16, d: u16): (r: bytes)
    ensures |r| == 8
  {
    EncodeU16(a) + (EncodeU16(b) + (EncodeU16(c) + EncodeU16(d)))
  }

  function FieldBytes(f: Fields): (b: bytes)
    ensures |b| == 24 + CHAPTER_TITLE_MAX
  {
    FourWords(f.spineIndex, f.startPage, f.endPage, f.pageCount)
    + (FourWords(f.startWord, f.endWord, f.wordCount, f.paragraph)
       + (EncodeU32(f.timestamp) + (EncodeU32(f.layoutSignature) + f.chapterTitle)))
  }

  function Head(f: Fields, textLength: u16): (b: bytes)
    ensures |b| == HEAD_SIZE
  {
    FieldBytes(f) + EncodeU16(textLength)
  }

  const HEAD_SIZE := 74

  function EncodeExcerpt(e: Excerpt): bytes
    requires Bounded(e)
  {
    Head(e.fields, |e.text|) + e.text
  }

  function EncodeHeader(count: u16, title: Text, author: Text, path: Text): bytes {
    [VERSION] + (EncodeU16(count) + (EncodeText(title) + (EncodeText(author) + EncodeText(path))))
  }

  // ---------------------------------------------------------------- reading

  predicate Has(data: bytes, pos: nat, n: nat) { pos + n <= |data| }

  function U16At(data: bytes, pos: nat): u16
    requires Has(data, pos, 2)
  {
    DecodeU16(data[pos..pos + 2])
  }

  function U32At(data: bytes, pos: nat): u32
    requires Has(data, pos, 4)
  {
    DecodeU32(data[pos..pos + 4])
  }

  /** `tryReadString`: the position after it. */
  function SkipText(data: bytes, pos: nat): (r: Option<nat>)
    ensures r.Some? ==> pos + 4 <= r.value <= |data|
  {
    if !Has(data, pos, 4) then None
    else
      var n := U32At(data, pos);
      if n > INT_MAX || !Has(data, pos + 4, n) then None else Some(pos + 4 + n)
  }

  function SignatureSize(v: Version): nat { if v >= VERSION then 4 else 0 }

  function FieldsSize(v: Version): nat { 20 + SignatureSize(v) + CHAPTER_TITLE_MAX }

  function FieldsAt(data: bytes, pos: nat, v: Version): Fields
    requires Has(data, pos, FieldsSize(v))
  {
    Fields(U16At(data, pos), U16At(data, pos + 2), U16At(data, pos + 4), U16At(data, pos + 6), U16At(data, pos + 8),
           U16At(data, pos + 10), U16At(data, pos + 12), U16At(data, pos + 14), U32At(data, pos + 16),
           if v >= VERSION then U32At(data, pos + 20) else 0,
           Terminate(data[pos + 20 + SignatureSize(v)..pos + FieldsSize(v)]))
  }

  function Cast32(n: nat): u32 { n % 0x1_0000_0000 }

  /** The text part of a record: offset, length kept in memory, and the position after it. Version 1
      stores the length in four bytes and keeps at most 512 bytes of the text; later versions store it
      in two and refuse more. */
  function TextPlace(data: bytes, pos: nat, v: Version): (r: Option<(u32, u16, nat)>)
    ensures r.Some? ==> pos < r.value.2 <= |data|
  {
    if v == LEGACY_VERSION then
      if !Has(data, pos, 4) || !Has(data, pos + 4, U32At(data, pos)) then None
      else
        var n := U32At(data, pos);
        Some((Cast32(pos + 4), if n < TEXT_MAX then n else TEXT_MAX, pos + 4 + n))
    else
      if !Has(data, pos, 2) || U16At(data, pos) > TEXT_MAX || !Has(data, pos + 2, U16At(data, pos)) then None
      else Some((Cast32(pos + 2), U16At(data, pos), pos + 2 + U16At(data, pos)))
  }

  function ClippingAt(data: bytes, pos: nat, v: Version): (r: Option<(Clipping, nat)>)
    ensures r.Some? ==> pos < r.value.1 <= |data|
  {
    if !Has(data, pos, FieldsSize(v)) then None
    else
      match TextPlace(data, pos + FieldsSize(v), v)
      case None => None
      case Some((offset, length, next)) => Some((Clipping(FieldsAt(data, pos, v), offset, length), next))
  }

  function ClippingsAt(data: bytes, pos: nat, v: Version, n: nat): Option<seq<Clipping>>
    decreases n
  {
    if n == 0 then Some([])
    else
      match ClippingAt(data, pos, v)
      case None => None
      case Some((c, next)) =>
        match ClippingsAt(data, next, v, n - 1)
        case None => None
        case Some(rest) => Some([c] + rest)
  }

  function RecordsStart(data: bytes): Option<nat> {
    match SkipText(data, 3)
    case None => None
    case Some(p) =>
      match SkipText(data, p)
      case None => None
      case Some(q) => SkipText(data, q)
  }

  /** What reading a store file gives. Bytes after the last record are ignored. */
  function DecodeFile(data: bytes): Option<seq<Clipping>> {
    if !Has(data, 0, 3) || !(LEGACY_VERSION <= data[0] <= VERSION) then None
    else
      match RecordsStart(data)
      case None => None
      case Some(start) =>
        if U16At(data, 1) > MAX_PER_BOOK then None else ClippingsAt(data, start, data[0], U16At(data, 1))
  }

  // ---------------------------------------------------------------- round trip

  /** The clipping kept for a record written at `pos`. */
  function PlacedAt(e: Excerpt, pos: nat): Clipping
    requires Bounded(e)
  {
    Clipping(e.fields, Cast32(pos + HEAD_SIZE), |e.text|)
  }

  /** The clippings a freshly written file holds in memory: each text right behind its record. */
  function Placed(es: seq<Excerpt>, pos: nat): (list: seq<Clipping>)
    requires forall i | 0 <= i < |es| :: Bounded(es[i])
    ensures |list| == |es|
  {
    if es == [] then []
    else
      assert Bounded(es[0]);
      [PlacedAt(es[0], pos)] + Placed(es[1..], pos + HEAD_SIZE + |es[0].text|)
  }

  lemma U16Reads(data: bytes, pos: nat, x: u16)
    requires At(data, pos, EncodeU16(x))
    ensures Has(data, pos, 2) && U16At(data, pos) == x
  {
    U16RoundTrip(x);
  }

  lemma U32Reads(data: bytes, pos: nat, x: u32)
    requires At(data, pos, EncodeU32(x))
    ensures Has(data, pos, 4) && U32At(data, pos) == x
  {
    U32RoundTrip(x);
  }

  lemma FourWordsRead(data: bytes, pos: nat, a: u16, b: u16, c: u16, d: u16)
    requires At(data, pos, FourWords(a, b, c, d))
    ensures Has(data, pos, 8)
    ensures U16At(data, pos) == a && U16At(data, pos + 2) == b && U16At(data, pos + 4) == c && U16At(data, pos + 6) == d
  {
    AtParts(data, pos, EncodeU16(a), EncodeU16(b) + (EncodeU16(c) + EncodeU16(d)));
    AtParts(data, pos + 2, EncodeU16(b), EncodeU16(c) + EncodeU16(d));
    AtParts(data, pos + 4, EncodeU16(c), EncodeU16(d));
    U16Reads(data, pos, a);
    U16Reads(data, pos + 2, b);
    U16Reads(data, pos + 4, c);
    U16Reads(data, pos + 6, d);
  }

  lemma FieldsRead(data: bytes, pos: nat, f: Fields)
    requires At(data, pos, FieldBytes(f))
    ensures Has(data, pos, FieldsSize(VERSION)) && FieldsAt(data, pos, VERSION) == f
  {
    var low := FourWords(f.spineIndex, f.startPage, f.endPage, f.pageCount);
    var high := FourWords(f.startWord, f.endWord, f.wordCount, f.paragraph);
    var tail := EncodeU32(f.layoutSignature) + f.chapterTitle;
    AtParts(data, pos, low, high + (EncodeU32(f.timestamp) + tail));
    AtParts(data, pos + 8, high, EncodeU32(f.timestamp) + tail);
    AtParts(data, pos + 16, EncodeU32(f.timestamp), tail);
    AtParts(data, pos + 20, EncodeU32(f.layoutSignature), f.chapterTitle);
    FourWordsRead(data, pos, f.spineIndex, f.startPage, f.endPage, f.pageCount);
    FourWordsRead(data, pos + 8, f.startWord, f.endWord, f.wordCount, f.paragraph);
    U32Reads(data, pos + 16, f.timestamp);
    U32Reads(data, pos + 20, f.layoutSignature);
    assert Terminate(f.chapterTitle) == f.chapterTitle;
  }

  /** A written record reads back as its fields, with the text where it stands. */
  lemma ExcerptReads(data: bytes, pos: nat, e: Excerpt)
    requires Bounded(e) && At(data, pos, EncodeExcerpt(e))
    ensures ClippingAt(data, pos, VERSION)
         == Some((PlacedAt(e, pos), pos + HEAD_SIZE + |e.text|))
    ensures At(data, pos + HEAD_SIZE, e.text)
  {
    AtParts(data, pos, Head(e.fields, |e.text|), e.text);
    AtParts(data, pos, FieldBytes(e.fields), EncodeU16(|e.text|));
    FieldsRead(data, pos, e.fields);
    U16Reads(data, pos + 72, |e.text|);
  }

  lemma ExcerptHeld(data: bytes, pos: nat, e: Excerpt)
    requires Bounded(e) && At(data, pos, EncodeExcerpt(e)) && |data| < 0x1_0000_0000
    ensures TextInside(data, PlacedAt(e, pos)) && TextAt(data, PlacedAt(e, pos)) == e.text
  {
    AtParts(data, pos, Head(e.fields, |e.text|), e.text);
  }

  lemma TextReads(data: bytes, pos: nat, s: Text)
    requires At(data, pos, EncodeText(s))
    ensures SkipText(data, pos) == Some(pos + 4 + |s|)
  {
    AtParts(data, pos, EncodeU32(|s|), s);
    U32Reads(data, pos, |s|);
  }

  ghost predicate AllBounded(es: seq<Excerpt>) { forall i | 0 <= i < |es| :: Bounded(es[i]) }

  /** The records of the list stand one after the other from `pos` on. */
  ghost predicate Stand(data: bytes, pos: nat, es: seq<Excerpt>)
    requires AllBounded(es)
    decreases |es|
  {
    es == [] || (At(data, pos, EncodeExcerpt(es[0])) && Stand(data, pos + HEAD_SIZE + |es[0].text|, es[1..]))
  }

  lemma PlacedSplits(es: seq<Excerpt>, pos: nat)
    requires AllBounded(es) && es != []
    ensures AllBounded(es[1..])
    ensures Placed(es, pos)
         == [PlacedAt(es[0], pos)]
            + Placed(es[1..], pos + HEAD_SIZE + |es[0].text|)
  {
  }

  lemma FirstStands(data: bytes, pos: nat, es: seq<Excerpt>)
    requires AllBounded(es) && es != [] && Stand(data, pos, es)
    ensures At(data, pos, EncodeExcerpt(es[0])) && Stand(data, pos + HEAD_SIZE + |es[0].text|, es[1..])
  {
  }

  /** Reading standing records gives them back. */
  lemma {:induction false} StandingParse(data: bytes, pos: nat, es: seq<Excerpt>)
    requires AllBounded(es) && Stand(data, pos, es)
    ensures ClippingsAt(data, pos, VERSION, |es|) == Some(Placed(es, pos))
    decreases |es|
  {
    if es != [] {
      var next := pos + HEAD_SIZE + |es[0].text|;
      var c := PlacedAt(es[0], pos);
      FirstStands(data, pos, es);
      ExcerptReads(data, pos, es[0]);
      PlacedSplits(es, pos);
      StandingParse(data, next, es[1..]);
      FirstRead(data, pos, VERSION, |es|, c, next, Placed(es[1..], next));
    }
  }

  /** Each text of standing records is where its clipping says. */
  lemma {:induction false} StandingMean(data: bytes, pos: nat, es: seq<Excerpt>)
    requires AllBounded(es) && Stand(data, pos, es) && |data| < 0x1_0000_0000
    ensures Resident(data, Placed(es, pos)) && Meaning(data, Placed(es, pos)) == es
    decreases |es|
  {
    if es != [] {
      var next := pos + HEAD_SIZE + |es[0].text|;
      var c := PlacedAt(es[0], pos);
      ExcerptHeld(data, pos, es[0]);
      PlacedSplits(es, pos);
      StandingMean(data, next, es[1..]);
      MeaningSplits(data, c, Placed(es[1..], next), es[0], es[1..]);
      assert es == [es[0]] + es[1..];
    }
  }

  lemma FirstRead(data: bytes, pos: nat, v: Version, n: nat, c: Clipping, next: nat, rest: seq<Clipping>)
    requires n > 0 && ClippingAt(data, pos, v) == Some((c, next)) && ClippingsAt(data, next, v, n - 1) == Some(rest)
    ensures ClippingsAt(data, pos, v, n) == Some([c] + rest)
  {
  }

  lemma MeaningSplits(data: bytes, c: Clipping, rest: seq<Clipping>, e: Excerpt, es: seq<Excerpt>)
    requires Resident(data, rest) && Meaning(data, rest) == es
    requires TextInside(data, c) && c.fields == e.fields && TextAt(data, c) == e.text
    ensures Resident(data, [c] + rest) && Meaning(data, [c] + rest) == [e] + es
  {
    forall i | 0 <= i < |[c] + rest| ensures TextInside(data, ([c] + rest)[i]) {
      if i > 0 { assert ([c] + rest)[i] == rest[i - 1]; }
    }
    forall i | 0 <= i < |[e] + es| ensures Meaning(data, [c] + rest)[i] == ([e] + es)[i] {
      if i > 0 { assert ([c] + rest)[i] == rest[i - 1] && ([e] + es)[i] == Meaning(data, rest)[i - 1]; }
    }
  }

  /** Where the record after the list would start. */
  function EndOf(es: seq<Excerpt>, pos: nat): nat {
    if es == [] then pos else EndOf(es[1..], pos + HEAD_SIZE + |es[0].text|)
  }

  /** One record more at the end. */
  lemma {:induction false} StandAppend(data: bytes, pos: nat, es: seq<Excerpt>, e: Excerpt)
    requires AllBounded(es) && Bounded(e) && Stand(data, pos, es) && EndOf(es, pos) == |data|
    ensures AllBounded(es + [e]) && Stand(data + EncodeExcerpt(e), pos, es + [e])
    ensures EndOf(es + [e], pos) == |data + EncodeExcerpt(e)|
    ensures Placed(es + [e], pos) == Placed(es, pos) + [PlacedAt(e, |data|)]
    decreases |es|
  {
    if es == [] {
      assert es + [e] == [e];
      AtEnd(data, EncodeExcerpt(e));
    } else {
      var next := pos + HEAD_SIZE + |es[0].text|;
      StandAppend(data, next, es[1..], e);
      assert (es + [e])[1..] == es[1..] + [e] && (es + [e])[0] == es[0];
      PlacedSplits(es, pos);
      PlacedSplits(es + [e], pos);
      AtGrows(data, pos, EncodeExcerpt(es[0]), EncodeExcerpt(e));
    }
  }

  /** A written header leads the reader to the first record. */
  lemma HeaderReads(data: bytes, count: u16, title: Text, author: Text, path: Text)
    requires At(data, 0, EncodeHeader(count, title, author, path))
    ensures Has(data, 0, 3) && data[0] == VERSION && U16At(data, 1) == count
    ensures RecordsStart(data) == Some(|EncodeHeader(count, title, author, path)|)
  {
    HeaderParts(data, count, EncodeText(title) + (EncodeText(author) + EncodeText(path)));
    TextsRead(data, 3, title, author, path);
  }

  lemma HeaderParts(data: bytes, count: u16, texts: bytes)
    requires At(data, 0, [VERSION] + (EncodeU16(count) + texts))
    ensures Has(data, 0, 3) && data[0] == VERSION && U16At(data, 1) == count && At(data, 3, texts)
  {
    AtParts(data, 0, [VERSION], EncodeU16(count) + texts);
    AtParts(data, 1, EncodeU16(count), texts);
    U16Reads(data, 1, count);
    assert data[0] == data[0..1][0];
  }

  lemma TextsRead(data: bytes, pos: nat, title: Text, author: Text, path: Text)
    requires At(data, pos, EncodeText(title) + (EncodeText(author) + EncodeText(path)))
    ensures SkipText(data, pos) == Some(pos + 4 + |title|)
    ensures SkipText(data, pos + 4 + |title|) == Some(pos + 8 + |title| + |author|)
    ensures SkipText(data, pos + 8 + |title| + |author|) == Some(pos + 12 + |title| + |author| + |path|)
  {
    AtParts(data, pos, EncodeText(title), EncodeText(author) + EncodeText(path));
    AtParts(data, pos + 4 + |title|, EncodeText(author), EncodeText(path));
    TextReads(data, pos, title);
    TextReads(data, pos + 4 + |title|, author);
    TextReads(data, pos + 8 + |title| + |author|, path);
  }

  /** A file of this shape reads back as exactly the clippings its writer keeps, with these texts. */
  lemma FileReads(data: bytes, title: Text, author: Text, path: Text, es: seq<Excerpt>)
    requires AllBounded(es) && |es| <= MAX_PER_BOOK && |data| < 0x1_0000_0000
    requires At(data, 0, EncodeHeader(|es|, title, author, path))
    requires Stand(data, |EncodeHeader(|es|, title, author, path)|, es)
    ensures var list := Placed(es, |EncodeHeader(|es|, title, author, path)|);
            DecodeFile(data) == Some(list) && Resident(data, list) && Meaning(data, list) == es
  {
    HeaderReads(data, |es|, title, author, path);
    StandingParse(data, |EncodeHeader(|es|, title, author, path)|, es);
    StandingMean(data, |EncodeHeader(|es|, title, author, path)|, es);
  }

  /** Everything the reader accepts has its texts inside the file. */
  lemma {:induction false} ReadTextsInside(data: bytes, pos: nat, v: Version, n: nat)
    requires ClippingsAt(data, pos, v, n).Some? && |data| < 0x1_0000_0000
    ensures Resident(data, ClippingsAt(data, pos, v, n).value) && |ClippingsAt(data, pos, v, n).value| == n
    decreases n
  {
    if n > 0 {
      var (c, next) := ClippingAt(data, pos, v).value;
      ReadTextInside(data, pos, v);
      ReadTextsInside(data, next, v, n - 1);
      var rest := ClippingsAt(data, next, v, n - 1).value;
      FirstRead(data, pos, v, n, c, next, rest);
      ResidentCons(data, c, rest);
    }
  }

  lemma ResidentCons(data: bytes, c: Clipping, rest: seq<Clipping>)
    requires TextInside(data, c) && Resident(data, rest)
    ensures Resident(data, [c] + rest)
  {
    forall i | 0 <= i < |[c] + rest| ensures TextInside(data, ([c] + rest)[i]) {
      if i > 0 { assert ([c] + rest)[i] == rest[i - 1]; }
    }
  }

  lemma ReadTextInside(data: bytes, pos: nat, v: Version)
    requires ClippingAt(data, pos, v).Some? && |data| < 0x1_0000_0000
    ensures TextInside(data, ClippingAt(data, pos, v).value.0)
  {
  }

}

/** The string tables of the generated source: one blob of texts for each language and, for each key,
    a 15-bit position with a flag that sends the reader to the English blob. */
module Translations {
  import opened Bytes
  import opened Wrappers
  import opened Bits
  import opened CppLiterals
  import opened CppLines

  const ENGLISH_FLAG := 0x8000
  const LARGEST_OFFSET := 0x7FFF

  // ---------------------------------------------------------------- blobs

  function Entry(text: Text): bytes { Utf8(text) + [0] }

  /** All entries, one after the other. */
  function Blob(texts: seq<Text>): bytes {
    if texts == [] then [] else Entry(texts[0]) + Blob(texts[1..])
  }

  /** The size of the entries before entry `i`. */
  function Position(texts: seq<Text>, i: nat): nat
    requires i <= |texts|
  {
    |Blob(texts[..i])|
  }

  lemma {:induction false} BlobConcat(a: seq<Text>, b: seq<Text>)
    ensures Blob(a + b) == Blob(a) + Blob(b)
  {
    if a == [] {
      assert a + b == b;
    } else {
      assert (a + b)[0] == a[0] && (a + b)[1..] == a[1..] + b;
      BlobConcat(a[1..], b);
      Reassociate(Entry(a[0]), Blob(a[1..]), Blob(b));
    }
  }

  lemma BlobOne(text: Text)
    ensures Blob([text]) == Entry(text)
  {
    assert [text][1..] == [] && Entry(text) + [] == Entry(text);
  }

  lemma EntryStands(texts: seq<Text>, i: nat)
    requires i < |texts|
    ensures At(Blob(texts), Position(texts, i), Entry(texts[i]))
    ensures Position(texts, i + 1) == Position(texts, i) + |Entry(texts[i])|
  {
    var before, after := texts[..i], texts[i + 1..];
    assert texts == before + ([texts[i]] + after);
    BlobConcat(before, [texts[i]] + after);
    BlobConcat([texts[i]], after);
    BlobOne(texts[i]);
    AtEnd(Blob(before), Entry(texts[i]));
    AtGrows(Blob(before) + Entry(texts[i]), |Blob(before)|, Entry(texts[i]), Blob(after));
    Reassociate(Blob(before), Entry(texts[i]), Blob(after));
    assert texts[..i + 1] == before + [texts[i]];
    BlobConcat(before, [texts[i]]);
  }

  // ---------------------------------------------------------------- reading a string

  /** A C string from `at` on: up to the next NUL, or None if the array ends before one. */
  function ReadToNul(data: bytes, at: nat): Option<bytes>
    decreases |data| - at
  {
    if at >= |data| then None
    else if data[at] == 0 then Some([])
    else
      match ReadToNul(data, at + 1)
      case None => None
      case Some(rest) => Some([data[at]] + rest)
  }

  /** The string a table entry names. */
  function PickString(english: bytes, own: bytes, offset: nat): Option<bytes> {
    if offset >= ENGLISH_FLAG then ReadToNul(english, offset - ENGLISH_FLAG) else ReadToNul(own, offset)
  }

  /** The part of a text a C string of it shows. */
  function UpToNul(s: bytes): bytes {
    if s == [] || s[0] == 0 then [] else [s[0]] + UpToNul(s[1..])
  }

  lemma {:induction false} UpToNulWhole(s: bytes)
    ensures UpToNul(s) == s <==> 0 !in s
  {
    if s != [] && s[0] != 0 {
      UpToNulWhole(s[1..]);
      assert s == [s[0]] + s[1..];
    }
  }

  lemma {:induction false} ReadsUpToNul(data: bytes, at: nat, s: bytes)
    requires At(data, at, s + [0])
    ensures ReadToNul(data, at) == Some(UpToNul(s))
    decreases |s|
  {
    var piece := s + [0];
    assert data[at] == data[at..at + |piece|][0] == piece[0];
    if s != [] && s[0] != 0 {
      assert piece[1..] == s[1..] + [0];
      assert data[at + 1..at + |piece|] == data[at..at + |piece|][1..];
      ReadsUpToNul(data, at + 1, s[1..]);
    }
  }

  // ---------------------------------------------------------------- one language

  /** The texts that differ from the English ones. */
  function OwnTexts(texts: seq<Text>, english: seq<Text>, n: nat): seq<Text>
    requires n <= |texts| == |english|
  {
    if n == 0 then []
    else OwnTexts(texts, english, n - 1) + if texts[n - 1] == english[n - 1] then [] else [texts[n - 1]]
  }

  /** The table entry a key should have: the English position, flagged, for a text that is the English
      one; else the position among the language's own texts. */
  ghost predicate IsOffset(offset: nat, texts: seq<Text>, english: seq<Text>, i: nat)
    requires i < |texts| == |english|
  {
    if texts[i] == english[i] then offset == ENGLISH_FLAG + Position(english, i)
    else offset == |Blob(OwnTexts(texts, english, i))|
  }

  lemma FlagSet(offset: nat)
    requires offset <= LARGEST_OFFSET
    ensures Or(offset, ENGLISH_FLAG) == ENGLISH_FLAG + offset
  {
    assert Pow2(4) == 16 && Pow2(8) == 0x100 && Pow2(12) == 0x1000 && Pow2(15) == 0x8000;
    assert ShiftLeft(1, 4) == 16 && ShiftLeft(1, 8) == 0x100 && ShiftLeft(1, 12) == 0x1000 && ShiftLeft(1, 15) == 0x8000;
    OrAppends(offset, 15, 1, 1);
  }

  method EnglishTable(texts: seq<Text>) returns (r: Option<seq<nat>>)
    ensures r.Some? <==> |Blob(texts)| <= LARGEST_OFFSET
    ensures r.Some? ==>
              |r.value| == |texts|
              && forall i | 0 <= i < |texts| :: r.value[i] == Position(texts, i) < ENGLISH_FLAG
  {
    var offsets: seq<nat> := [];
    var current := 0;
    for i := 0 to |texts|
      invariant |offsets| == i && current == Position(texts, i)
      invariant forall k | 0 <= k < i :: offsets[k] == Position(texts, k) <= current
    {
      EntryStands(texts, i);
      offsets := offsets + [current];
      current := current + |Utf8(texts[i])| + 1;
    }
    assert texts[..|texts|] == texts;
    return if current > LARGEST_OFFSET then None else Some(offsets);
  }

  method OtherTable(texts: seq<Text>, english: seq<Text>, englishOffsets: seq<nat>)
    returns (r: Option<(seq<nat>, seq<Text>)>)
    requires |texts| == |english| == |englishOffsets|
    requires forall i | 0 <= i < |english| :: englishOffsets[i] == Position(english, i) < ENGLISH_FLAG
    ensures r.Some? <==> |Blob(OwnTexts(texts, english, |texts|))| <= LARGEST_OFFSET
    ensures r.Some? ==>
              |r.value.0| == |texts| && r.value.1 == OwnTexts(texts, english, |texts|)
              && forall i | 0 <= i < |texts| :: IsOffset(r.value.0[i], texts, english, i)
  {
    var offsets: seq<nat> := [];
    var blobTexts: seq<Text> := [];
    var current := 0;
    for i := 0 to |texts|
      invariant |offsets| == i && blobTexts == OwnTexts(texts, english, i) && current == |Blob(blobTexts)|
      invariant forall k | 0 <= k < i :: IsOffset(offsets[k], texts, english, k)
    {
      if texts[i] == english[i] {
        FlagSet(englishOffsets[i]);
        offsets := offsets + [Or(englishOffsets[i], ENGLISH_FLAG)];
      } else {
        offsets := offsets + [current];
        current := current + |Utf8(texts[i])| + 1;
        BlobConcat(blobTexts, [texts[i]]);
        BlobOne(texts[i]);
        blobTexts := blobTexts + [texts[i]];
      }
    }
    return if current > LARGEST_OFFSET then None else Some((offsets, blobTexts));
  }

  // ---------------------------------------------------------------- the source text of a blob

  /** The literal lines of a blob; without texts a single separator. */
  function BlobLines(texts: seq<Text>): seq<Text> {
    if texts == [] then DataLines([]) else AllLines(texts)
  }

  function AllLines(texts: seq<Text>): seq<Text> {
    if texts == [] then [] else AllLines(texts[..|texts| - 1]) + DataLines(texts[|texts| - 1])
  }

  method WriteBlob(texts: seq<Text>) returns (lines: seq<Text>)
    ensures lines == BlobLines(texts)
  {
    lines := [];
    for i := 0 to |texts|
      invariant lines == AllLines(texts[..i])
    {
      assert texts[..i + 1][..i] == texts[..i];
      lines := AppendStringDataEntry(lines, texts[i]);
    }
    assert texts[..|texts|] == texts;
    if texts == [] {
      lines := AppendStringDataEntry(lines, []);
    }
  }

  /** A text whose literal is cut between escapes only and which holds no escape. */
  ghost predicate Compiles(text: Text) { CutsClean(text) && Safe(text) }

  lemma {:induction false} AllLinesRead(texts: seq<Text>)
    requires forall t :: t in texts ==> Compiles(t)
    ensures LexAll(AllLines(texts)) == Some(Blob(texts))
  {
    if texts != [] {
      var n := |texts| - 1;
      var front := texts[..n];
      assert texts == front + [texts[n]];
      assert forall t :: t in front ==> Compiles(t);
      AllLinesRead(front);
      OneTextMore(front, texts[n]);
    }
  }

  lemma OneTextMore(texts: seq<Text>, text: Text)
    requires Compiles(text) && LexAll(AllLines(texts)) == Some(Blob(texts))
    ensures LexAll(AllLines(texts) + DataLines(text)) == Some(Blob(texts + [text]))
  {
    EntryReadsIff(text);
    LexAllConcat(AllLines(texts), DataLines(text));
    BlobConcat(texts, [text]);
    BlobOne(text);
  }

  /** What the compiler makes of a blob's lines starts with the blob. */
  ghost predicate IsData(data: bytes, texts: seq<Text>) {
    LexAll(BlobLines(texts)) == Some(data)
  }

  lemma DataIsBlob(texts: seq<Text>)
    requires forall t :: t in texts ==> Compiles(t)
    ensures texts != [] ==> IsData(Blob(texts), texts)
    ensures texts == [] ==> IsData([0], texts)
  {
    AllLinesRead(texts);
    if texts == [] {
      PlainEntryReads([]) by { EmptyFits(); }
      assert Utf8([]) + [0] == [0];
    }
  }

  lemma EmptyFits()
    ensures Fits([])
  {
    assert [] + NUL_ESCAPE == NUL_ESCAPE;
    assert WithNul(Segments(Replaced([]), [])) == [NUL_ESCAPE];
  }

  // ---------------------------------------------------------------- every language, every key

  lemma {:induction false} OwnAt(texts: seq<Text>, english: seq<Text>, i: nat, n: nat)
    requires i < n <= |texts| == |english| && texts[i] != english[i]
    ensures At(Blob(OwnTexts(texts, english, n)), |Blob(OwnTexts(texts, english, i))|, Entry(texts[i]))
    ensures texts[i] in OwnTexts(texts, english, n)
  {
    var before := OwnTexts(texts, english, n - 1);
    if i == n - 1 {
      BlobConcat(before, [texts[i]]);
      BlobOne(texts[i]);
      AtEnd(Blob(before), Entry(texts[i]));
    } else {
      OwnAt(texts, english, i, n - 1);
      var more := if texts[n - 1] == english[n - 1] then [] else [texts[n - 1]];
      BlobConcat(before, more);
      AtGrows(Blob(before), |Blob(OwnTexts(texts, english, i))|, Entry(texts[i]), Blob(more));
    }
  }

  lemma {:induction false} OwnPositionSmall(texts: seq<Text>, english: seq<Text>, i: nat)
    requires i < |texts| == |english| && texts[i] != english[i]
    requires |Blob(OwnTexts(texts, english, |texts|))| <= LARGEST_OFFSET
    ensures |Blob(OwnTexts(texts, english, i))| < ENGLISH_FLAG
  {
    OwnAt(texts, english, i, |texts|);
  }

  lemma EntryNamesText(texts: seq<Text>, data: bytes, at: nat, text: Text)
    requires texts != [] && (forall t :: t in texts ==> Compiles(t)) && IsData(data, texts)
    requires At(Blob(texts), at, Entry(text))
    ensures ReadToNul(data, at) == Some(Utf8(text)) <==> 0 !in Utf8(text)
  {
    assert data == Blob(texts) by {
      DataIsBlob(texts);
    }
    UpToNulWhole(Utf8(text));
    ReadsUpToNul(data, at, Utf8(text));
  }

  /** In the compiled tables the entry of a key names its text in the language: the reader gets the
      UTF-8 of the text exactly if the text holds no NUL. */
  lemma TableNamesText(texts: seq<Text>, english: seq<Text>, i: nat, offset: nat, englishData: bytes, ownData: bytes)
    requires i < |texts| == |english| && IsOffset(offset, texts, english, i)
    requires |Blob(english)| <= LARGEST_OFFSET && |Blob(OwnTexts(texts, english, |texts|))| <= LARGEST_OFFSET
    requires forall t :: t in english || t in OwnTexts(texts, english, |texts|) ==> Compiles(t)
    requires IsData(englishData, english) && IsData(ownData, OwnTexts(texts, english, |texts|))
    ensures offset < 0x1_0000
    ensures PickString(englishData, ownData, offset) == Some(Utf8(texts[i])) <==> 0 !in Utf8(texts[i])
  {
    if texts[i] == english[i] {
      EntryStands(english, i);
      EntryNamesText(english, englishData, Position(english, i), texts[i]);
    } else {
      OwnAt(texts, english, i, |texts|);
      OwnPositionSmall(texts, english, i);
      EntryNamesText(OwnTexts(texts, english, |texts|), ownData, offset, texts[i]);
    }
  }

  /** The same for English itself, whose table is never flagged. */
  lemma EnglishTableNamesText(english: seq<Text>, i: nat, englishData: bytes)
    requires i < |english| && |Blob(english)| <= LARGEST_OFFSET
    requires (forall t :: t in english ==> Compiles(t)) && IsData(englishData, english)
    ensures PickString(englishData, englishData, Position(english, i)) == Some(Utf8(english[i]))
       <==> 0 !in Utf8(english[i])
  {
    EntryStands(english, i);
    EntryNamesText(english, englishData, Position(english, i), english[i]);
  }

  // ---------------------------------------------------------------- all languages

  /** What is generated for one language: the offset of each key and the lines of its blob. */
  datatype Table = Table(offsets: seq<nat>, lines: seq<Text>)

  /** English is there, and every language has a text for every key. */
  ghost predicate Complete(languages: seq<seq<Text>>) {
    languages != [] && forall k | 0 <= k < |languages| :: |languages[k]| == |languages[0]|
  }

  /** The texts whose blob a language gets: all of them for English, the differing ones otherwise. */
  ghost function BlobTexts(languages: seq<seq<Text>>, k: nat): seq<Text>
    requires Complete(languages) && k < |languages|
  {
    if k == 0 then languages[0] else OwnTexts(languages[k], languages[0], |languages[0]|)
  }

  /** The entries of a table name the language's texts. */
  ghost predicate IsTable(table: Table, languages: seq<seq<Text>>, k: nat)
    requires Complete(languages) && k < |languages|
  {
    && table.lines == BlobLines(BlobTexts(languages, k))
    && |table.offsets| == |languages[0]|
    && forall i | 0 <= i < |languages[0]| ::
         if k == 0 then table.offsets[i] == Position(languages[0], i)
         else IsOffset(table.offsets[i], languages[k], languages[0], i)
  }

  ghost predicate AreTables(tables: seq<Table>, languages: seq<seq<Text>>)
    requires Complete(languages) && |tables| <= |languages|
  {
    forall k | 0 <= k < |tables| :: IsTable(tables[k], languages, k)
  }

  /** The blob of language `k` leaves its offsets within 15 bits. */
  ghost predicate Fitting(languages: seq<seq<Text>>, k: nat)
    requires Complete(languages) && k < |languages|
  {
    |Blob(BlobTexts(languages, k))| <= LARGEST_OFFSET
  }

  ghost predicate FittingUpTo(languages: seq<seq<Text>>, n: nat)
    requires Complete(languages) && n <= |languages|
  {
    forall k | 0 <= k < n :: Fitting(languages, k)
  }

  ghost predicate AllCompile(languages: seq<seq<Text>>)
    requires Complete(languages)
  {
    forall k | 0 <= k < |languages| :: Compile(BlobTexts(languages, k))
  }

  ghost predicate Compile(texts: seq<Text>) { forall t :: t in texts ==> Compiles(t) }

  /** Key `i` of language `k` reads back from the compiled tables, exactly if its text holds no NUL. */
  ghost predicate ReadsBack(tables: seq<Table>, languages: seq<seq<Text>>, k: nat, i: nat)
    requires k < |tables| == |languages| && i < |languages[k]| && i < |tables[k].offsets|
  {
    var english, own := LexAll(tables[0].lines), LexAll(tables[k].lines);
    && english.Some? && own.Some? && tables[k].offsets[i] < 0x1_0000
    && (PickString(english.value, own.value, tables[k].offsets[i]) == Some(Utf8(languages[k][i]))
        <==> 0 !in Utf8(languages[k][i]))
  }

  ghost predicate AllReadBack(tables: seq<Table>, languages: seq<seq<Text>>)
    requires Complete(languages) && |tables| == |languages| && AreTables(tables, languages)
  {
    forall k, i | 0 <= k < |languages| && 0 <= i < |languages[k]| ::
      IsTable(tables[k], languages, k) && ReadsBack(tables, languages, k, i)
  }

  /** Generates the tables of all languages, English first. It refuses exactly if some blob outgrows its
      15 bits; otherwise every key of every language reads back, provided the texts compile. */
  method WriteLanguages(languages: seq<seq<Text>>) returns (r: Option<seq<Table>>)
    requires Complete(languages)
    ensures r.Some? <==> FittingUpTo(languages, |languages|)
    ensures r.Some? ==> |r.value| == |languages| && AreTables(r.value, languages)
    ensures r.Some? && AllCompile(languages) ==> AllReadBack(r.value, languages)
  {
    var english := WriteEnglish(languages);
    FittingNext(languages, 0);
    if english.None? {
      return None;
    }
    TablesNext([], english.value, languages);
    var tables := [english.value];
    for k := 1 to |languages|
      invariant |tables| == k
      invariant FittingUpTo(languages, k)
      invariant AreTables(tables, languages)
    {
      var table := WriteLanguage(languages, k, english.value.offsets);
      FittingNext(languages, k);
      if table.None? {
        return None;
      }
      TablesNext(tables, table.value, languages);
      tables := tables + [table.value];
    }
    if AllCompile(languages) {
      LanguagesReadBack(tables, languages);
    }
    return Some(tables);
  }

  lemma FittingNext(languages: seq<seq<Text>>, k: nat)
    requires Complete(languages) && k < |languages|
    ensures FittingUpTo(languages, k + 1) == (FittingUpTo(languages, k) && Fitting(languages, k))
    ensures !FittingUpTo(languages, k + 1) ==> !FittingUpTo(languages, |languages|)
  {
  }

  lemma TablesNext(tables: seq<Table>, table: Table, languages: seq<seq<Text>>)
    requires Complete(languages) && |tables| < |languages| && AreTables(tables, languages)
    requires IsTable(table, languages, |tables|)
    ensures AreTables(tables + [table], languages)
  {
    var all := tables + [table];
    forall k | 0 <= k < |all| ensures IsTable(all[k], languages, k) {
      if k < |tables| {
        assert all[k] == tables[k];
      } else {
        assert all[k] == table && k == |tables|;
      }
    }
  }

  ghost predicate EnglishOffsets(offsets: seq<nat>, english: seq<Text>) {
    |offsets| == |english| && forall i | 0 <= i < |english| :: offsets[i] == Position(english, i) < ENGLISH_FLAG
  }

  method WriteEnglish(languages: seq<seq<Text>>) returns (r: Option<Table>)
    requires Complete(languages)
    ensures r.Some? <==> Fitting(languages, 0)
    ensures r.Some? ==> IsTable(r.value, languages, 0) && EnglishOffsets(r.value.offsets, languages[0])
  {
    var offsets := EnglishTable(languages[0]);
    if offsets.None? {
      return None;
    }
    var lines := WriteBlob(languages[0]);
    return Some(Table(offsets.value, lines));
  }

  method WriteLanguage(languages: seq<seq<Text>>, k: nat, englishOffsets: seq<nat>) returns (r: Option<Table>)
    requires Complete(languages) && 0 < k < |languages| && EnglishOffsets(englishOffsets, languages[0])
    ensures r.Some? <==> Fitting(languages, k)
    ensures r.Some? ==> IsTable(r.value, languages, k)
  {
    var own := OtherTable(languages[k], languages[0], englishOffsets);
    if own.None? {
      return None;
    }
    var lines := WriteBlob(own.value.1);
    return Some(Table(own.value.0, lines));
  }

  lemma LanguagesReadBack(tables: seq<Table>, languages: seq<seq<Text>>)
    requires Complete(languages) && |tables| == |languages| && AreTables(tables, languages)
    requires FittingUpTo(languages, |languages|) && AllCompile(languages)
    ensures AllReadBack(tables, languages)
  {
    forall k, i | 0 <= k < |languages| && 0 <= i < |languages[k]|
      ensures IsTable(tables[k], languages, k) && ReadsBack(tables, languages, k, i)
    {
      assert IsTable(tables[0], languages, 0) && Fitting(languages, 0) && Fitting(languages, k);
      assert Compile(BlobTexts(languages, 0)) && Compile(BlobTexts(languages, k));
      LanguageReadsBack(tables, languages, k, i);
    }
  }

  lemma LanguageReadsBack(tables: seq<Table>, languages: seq<seq<Text>>, k: nat, i: nat)
    requires Complete(languages) && k < |tables| == |languages|
    requires i < |languages[0]| == |languages[k]| && IsTable(tables[0], languages, 0) && IsTable(tables[k], languages, k)
    requires Fitting(languages, 0) && Fitting(languages, k)
    requires Compile(BlobTexts(languages, 0)) && Compile(BlobTexts(languages, k))
    ensures ReadsBack(tables, languages, k, i)
  {
    DataIsBlob(languages[0]);
    DataIsBlob(BlobTexts(languages, k));
    var english, own := LexAll(tables[0].lines), LexAll(tables[k].lines);
    if k == 0 {
      EntryStands(languages[0], i);
      AtBounds(languages[0], i);
      EnglishTableNamesText(languages[0], i, english.value);
    } else {
      TableNamesText(languages[k], languages[0], i, tables[k].offsets[i], english.value, own.value);
    }
  }

  /** No entry starts behind the end of its blob. */
  lemma AtBounds(texts: seq<Text>, i: nat)
    requires i < |texts|
    ensures Position(texts, i) < |Blob(texts)|
  {
    EntryStands(texts, i);
  }

  // ---------------------------------------------------------------- a text that does not compile

  /** A word of 111 letters before a letter outside ASCII, without a space to cut at. */
  function LongWord(): Text { seq(111, _ => Ascii(0x61)) + [Wide([0xC3, 0xA9])] }

  lemma LettersClosed(n: nat)
    ensures Closed(seq(n, _ => Ascii(0x61)))
  {
    if n > 0 {
      assert seq(n, _ => Ascii(0x61))[1..] == seq(n - 1, _ => Ascii(0x61));
      LettersClosed(n - 1);
    }
  }

  lemma {:induction false} NoSpaceInLetters(c: Text, i: nat)
    requires |c| == 115 && i <= 111 && forall k | 0 <= k < 111 :: c[k] == Ascii(0x61)
    requires c[111] == BACKSLASH && c[113] != SPACE && c[113] != BACKSLASH && c[114] != SPACE
    ensures LastSpace(c, i, -1) == -1
    decreases 111 - i
  {
    if i < 111 { NoSpaceInLetters(c, i + 1); }
  }

  /** The forced cut splits an escape of this segment, and the line it leaves is no literal. */
  lemma ForcedCutBreaks()
    ensures var c := seq(111, _ => Ascii(0x61)) + HexEscape(0xC3);
            c == Segments(LongWord(), [])[0] && LexAll(Wrapped(c)) == None && Lex(c).Some?
  {
    var letters := seq(111, _ => Ascii(0x61));
    var c := letters + HexEscape(0xC3);
    LettersClosed(111);
    LongWordSegments();
    HexEscapeReads(0xC3);
    ClosedJoins(letters, HexEscape(0xC3));
    NoSpaceInLetters(c, 0);
    assert CutAt(c) == 113 && c[..113] == letters + [BACKSLASH, LETTER_X];
    ClosedJoins(letters, [BACKSLASH, LETTER_X]);
    assert Lex([BACKSLASH, LETTER_X]) == None;
    LexAllCons(c[..113], Wrapped(c[113..]));
  }

  lemma {:induction false} LettersPass(n: nat, current: Text, rest: Text)
    ensures Segments(seq(n, _ => Ascii(0x61)) + rest, current) == Segments(rest, current + seq(n, _ => Ascii(0x61)))
    decreases n
  {
    var letters := seq(n, _ => Ascii(0x61));
    if n == 0 {
      assert letters + rest == rest && current + letters == current;
    } else {
      var fewer := seq(n - 1, _ => Ascii(0x61));
      assert (letters + rest)[0] == Ascii(0x61) && (letters + rest)[1..] == fewer + rest;
      LettersPass(n - 1, current + [Ascii(0x61)], rest);
      assert current + [Ascii(0x61)] + fewer == current + letters;
    }
  }

  lemma LongWordSegments()
    ensures Segments(LongWord(), [])[0] == seq(111, _ => Ascii(0x61)) + HexEscape(0xC3)
  {
    var letters := seq(111, _ => Ascii(0x61));
    var tail := [Wide([0xC3, 0xA9])];
    LettersPass(111, [], tail);
    assert [] + letters == letters;
    assert Segments(tail, letters) == WideSegments([0xC3, 0xA9], letters) + Segments(tail[1..], []);
  }
}

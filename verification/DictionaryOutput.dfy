/** The files of a merged dictionary, and what a reader of those files finds. */
module DictionaryOutput {
  import opened Bytes
  import opened Wrappers
  import opened DictionaryIndex
  import opened DictionaryLookup
  import opened DictionaryMerge

  // ---------------------------------------------------------------- entries as items

  function ItemOfEntry(e: Entry): Item {
    Item(e.word, EncodeBigEndian(e.offset) + EncodeBigEndian(e.size))
  }

  /** None for a target of more than 32 bits. */
  function ItemOfSynonym(s: Synonym): Item
    requires s.target < 0x1_0000_0000
  {
    Item(s.word, EncodeBigEndian(s.target))
  }

  function ItemsOfEntries(es: seq<Entry>): seq<Item> {
    seq(|es|, i requires 0 <= i < |es| => ItemOfEntry(es[i]))
  }

  predicate Narrow(syns: seq<Synonym>) { forall s :: s in syns ==> s.target < 0x1_0000_0000 }

  function ItemsOfSynonyms(syns: seq<Synonym>): seq<Item>
    requires Narrow(syns)
  {
    seq(|syns|, i requires 0 <= i < |syns| => assert syns[i] in syns; ItemOfSynonym(syns[i]))
  }

  lemma EntryPayload(e: Entry)
    ensures Payload(ItemOfEntry(e).payload) == Found(e.offset, e.size)
  {
    var p := ItemOfEntry(e).payload;
    assert p[..4] == EncodeBigEndian(e.offset) && p[4..] == EncodeBigEndian(e.size);
    BigEndianRoundTrip(e.offset);
    BigEndianRoundTrip(e.size);
  }

  // ---------------------------------------------------------------- reading a source

  /** The files of one source. */
  datatype Files = Files(idx: bytes, dict: bytes, syn: Option<bytes>)

  /** The files hold exactly this source. */
  ghost predicate Holds(files: Files, source: Source) {
    && WellFormed(ItemsOfEntries(source.entries), 8) && EncodeAll(ItemsOfEntries(source.entries)) == files.idx
    && source.dict == files.dict
    && Narrow(source.syns)
    && (if files.syn.Some?
        then WellFormed(ItemsOfSynonyms(source.syns), 4) && EncodeAll(ItemsOfSynonyms(source.syns)) == files.syn.value
        else source.syns == [])
  }

  method EntryOf(items: seq<Item>, i: nat) returns (e: Entry)
    requires WellFormed(items, 8) && i < |items|
    ensures ItemOfEntry(e) == items[i]
  {
    var item := items[i];
    assert item in items;
    BigEndianReads(item.payload[..4]);
    BigEndianReads(item.payload[4..]);
    e := Entry(item.word, DecodeBigEndian(item.payload[..4]), DecodeBigEndian(item.payload[4..]));
  }

  method SynonymOf(items: seq<Item>, i: nat) returns (s: Synonym)
    requires WellFormed(items, 4) && i < |items|
    ensures s.target < 0x1_0000_0000 && ItemOfSynonym(s) == items[i]
  {
    var item := items[i];
    assert item in items;
    BigEndianReads(item.payload);
    s := Synonym(item.word, DecodeBigEndian(item.payload));
  }

  method ParseAllIdx(idx: bytes) returns (r: Option<seq<Entry>>)
    ensures r.Some? ==> WellFormed(ItemsOfEntries(r.value), 8) && EncodeAll(ItemsOfEntries(r.value)) == idx
    ensures r.None? ==> forall items :: WellFormed(items, 8) ==> EncodeAll(items) != idx
  {
    var items := ParseItems(idx, 8);
    if items.None? {
      return None;
    }
    var es: seq<Entry> := [];
    for i := 0 to |items.value|
      invariant ItemsOfEntries(es) == items.value[..i]
    {
      var e := EntryOf(items.value, i);
      EntryTaken(items.value, i, es, e);
      es := es + [e];
    }
    assert items.value[..|items.value|] == items.value;
    return Some(es);
  }

  method ParseAllSyn(syn: bytes) returns (r: Option<seq<Synonym>>)
    ensures r.Some? ==>
              Narrow(r.value) && WellFormed(ItemsOfSynonyms(r.value), 4) && EncodeAll(ItemsOfSynonyms(r.value)) == syn
    ensures r.None? ==> forall items :: WellFormed(items, 4) ==> EncodeAll(items) != syn
  {
    var items := ParseItems(syn, 4);
    if items.None? {
      return None;
    }
    var syns: seq<Synonym> := [];
    for i := 0 to |items.value|
      invariant Narrow(syns) && ItemsOfSynonyms(syns) == items.value[..i]
    {
      var s := SynonymOf(items.value, i);
      SynonymTaken(items.value, i, syns, s);
      syns := syns + [s];
    }
    assert items.value[..|items.value|] == items.value;
    return Some(syns);
  }

  lemma SynonymTaken(items: seq<Item>, i: nat, syns: seq<Synonym>, s: Synonym)
    requires i < |items| && Narrow(syns) && ItemsOfSynonyms(syns) == items[..i]
    requires s.target < 0x1_0000_0000 && ItemOfSynonym(s) == items[i]
    ensures Narrow(syns + [s]) && ItemsOfSynonyms(syns + [s]) == items[..i + 1]
  {
    assert ItemsOfSynonyms(syns + [s]) == ItemsOfSynonyms(syns) + [items[i]];
  }

  lemma EntryTaken(items: seq<Item>, i: nat, es: seq<Entry>, e: Entry)
    requires i < |items| && ItemsOfEntries(es) == items[..i] && ItemOfEntry(e) == items[i]
    ensures ItemsOfEntries(es + [e]) == items[..i + 1]
  {
    assert ItemsOfEntries(es + [e]) == ItemsOfEntries(es) + [items[i]];
  }

  method ReadSource(files: Files) returns (r: Option<Source>)
    ensures r.Some? ==> Holds(files, r.value)
    ensures r.None? ==> forall source :: !Holds(files, source)
  {
    var entries := ParseAllIdx(files.idx);
    if entries.None? {
      return None;
    }
    var syns: Option<seq<Synonym>> := Some([]);
    if files.syn.Some? {
      syns := ParseAllSyn(files.syn.value);
      if syns.None? {
        return None;
      }
    }
    return Some(Source(entries.value, files.dict, syns.value));
  }

  ghost predicate AllHold(files: seq<Files>, sources: seq<Source>) {
    |files| == |sources| && forall i | 0 <= i < |files| :: Holds(files[i], sources[i])
  }

  lemma OneBadSource(files: seq<Files>, i: nat)
    requires i < |files| && forall source :: !Holds(files[i], source)
    ensures forall sources :: !AllHold(files, sources)
  {
    forall sources: seq<Source> | |sources| == |files| ensures !AllHold(files, sources) {
      assert !Holds(files[i], sources[i]);
    }
  }

  method ReadSources(files: seq<Files>) returns (r: Option<seq<Source>>)
    ensures r.Some? ==> AllHold(files, r.value)
    ensures r.None? ==> forall sources :: !AllHold(files, sources)
  {
    var sources: seq<Source> := [];
    for i := 0 to |files|
      invariant AllHold(files[..i], sources)
    {
      var source := ReadSource(files[i]);
      if source.None? {
        OneBadSource(files, i);
        return None;
      }
      sources := sources + [source.value];
      assert files[..i + 1] == files[..i] + [files[i]];
    }
    assert files[..|files|] == files;
    return Some(sources);
  }

  lemma NoNuls(files: Files, source: Source)
    requires Holds(files, source)
    ensures forall e :: e in source.entries ==> 0 !in e.word
    ensures forall s :: s in source.syns ==> 0 !in s.word
  {
    forall e | e in source.entries ensures 0 !in e.word {
      var i :| 0 <= i < |source.entries| && source.entries[i] == e;
      assert ItemsOfEntries(source.entries)[i] in ItemsOfEntries(source.entries);
    }
    forall s | s in source.syns ensures 0 !in s.word {
      var i :| 0 <= i < |source.syns| && source.syns[i] == s;
      assert ItemsOfSynonyms(source.syns)[i] in ItemsOfSynonyms(source.syns);
    }
  }

  // ---------------------------------------------------------------- writing the merged files

  /** The first `k` definitions, end to end. */
  function Joined(defs: seq<bytes>, k: nat): bytes
    requires k <= |defs|
  {
    if k == 0 then [] else Joined(defs, k - 1) + defs[k - 1]
  }

  lemma {:induction false} JoinedGrows(defs: seq<bytes>, j: nat, k: nat)
    requires j <= k <= |defs|
    ensures Joined(defs, j) <= Joined(defs, k)
    decreases k - j
  {
    if j < k { JoinedGrows(defs, j, k - 1); }
  }

  /** Every offset and size of the list fits 32 bits. */
  ghost predicate SlicesFit(defs: seq<bytes>) {
    forall k | 0 <= k < |defs| :: SliceFits(defs, k)
  }

  ghost predicate SliceFits(defs: seq<bytes>, k: nat)
    requires k < |defs|
  {
    |Joined(defs, k)| < 0x1_0000_0000 && |defs[k]| < 0x1_0000_0000
  }

  /** The entries tile the dictionary in order. */
  ghost predicate Tiles(es: seq<Entry>, words: seq<bytes>, defs: seq<bytes>) {
    && |es| == |words| == |defs|
    && forall k | 0 <= k < |es| ::
         es[k].word == words[k] && es[k].offset == |Joined(defs, k)| && es[k].size == |defs[k]|
  }

  method LayOut(defs: seq<bytes>) returns (dict: bytes, offsets: seq<nat>)
    ensures dict == Joined(defs, |defs|) && |offsets| == |defs|
    ensures forall k | 0 <= k < |defs| :: offsets[k] == |Joined(defs, k)|
  {
    dict, offsets := [], [];
    for k := 0 to |defs|
      invariant dict == Joined(defs, k) && |offsets| == k
      invariant forall i | 0 <= i < k :: offsets[i] == |Joined(defs, i)|
    {
      offsets := offsets + [|dict|];
      dict := dict + defs[k];
    }
  }

  /** The index entries; None where an offset or size does not pack into 32 bits. */
  method PackEntries(words: seq<bytes>, defs: seq<bytes>, offsets: seq<nat>) returns (r: Option<seq<Entry>>)
    requires |words| == |defs| == |offsets| && forall k | 0 <= k < |defs| :: offsets[k] == |Joined(defs, k)|
    ensures r.Some? <==> SlicesFit(defs)
    ensures r.Some? ==> Tiles(r.value, words, defs)
  {
    var es: seq<Entry> := [];
    for k := 0 to |defs|
      invariant |es| == k
      invariant forall i | 0 <= i < k :: SliceFits(defs, i)
      invariant forall i | 0 <= i < k ::
                  es[i].word == words[i] && es[i].offset == offsets[i] && es[i].size == |defs[i]|
    {
      if offsets[k] >= 0x1_0000_0000 || |defs[k]| >= 0x1_0000_0000 {
        assert !SliceFits(defs, k);
        return None;
      }
      assert SliceFits(defs, k);
      es := es + [Entry(words[k], offsets[k], |defs[k]|)];
    }
    return Some(es);
  }

  lemma SliceIsDefinition(es: seq<Entry>, words: seq<bytes>, defs: seq<bytes>, k: nat)
    requires Tiles(es, words, defs) && k < |es|
    ensures es[k].offset + es[k].size == |Joined(defs, k + 1)| <= |Joined(defs, |defs|)|
    ensures Joined(defs, |defs|)[es[k].offset..es[k].offset + es[k].size] == defs[k]
  {
    JoinedGrows(defs, k + 1, |defs|);
    var dict, o, n := Joined(defs, |defs|), |Joined(defs, k)|, |defs[k]|;
    assert dict[..o + n] == Joined(defs, k) + defs[k];
    assert dict[o..o + n] == dict[..o + n][o..];
  }

  // ---------------------------------------------------------------- what the files mean

  /** A plain lookup in the files gives the word's definition bytes, or nothing if no source has the word. */
  ghost predicate Answers(files: Files, items: seq<Item>, sources: seq<Source>, w: bytes)
    requires WellFormed(items, 8)
  {
    match LinearScan(items, w)
    case Found(o, n) =>
      IsHeadword(sources, w) && o + n <= |files.dict| && files.dict[o..o + n] == Definition(sources, w)
    case NotFound => !IsHeadword(sources, w)
    case Raised => false
  }

  /** The files are a well-formed dictionary that means what the sources mean together. */
  ghost predicate MeansTheSame(files: Files, items: seq<Item>, sources: seq<Source>) {
    && WellFormed(items, 8) && EncodeAll(items) == files.idx
    && forall w :: Answers(files, items, sources, w)
  }

  lemma EntriesAnswer(files: Files, es: seq<Entry>, m: Content, sources: seq<Source>, w: bytes)
    requires ListsHeadwords(m.words, sources) && Defines(sources, m.words, m.defs) && Tiles(es, m.words, m.defs)
    requires files.dict == Joined(m.defs, |m.defs|) && WellFormed(ItemsOfEntries(es), 8)
    ensures Answers(files, ItemsOfEntries(es), sources, w)
  {
    if w in m.words {
      KnownWordAnswers(files, es, m, sources, w);
    } else {
      UnknownWordAnswers(files, es, m, sources, w);
    }
  }

  lemma KnownWordAnswers(files: Files, es: seq<Entry>, m: Content, sources: seq<Source>, w: bytes)
    requires ListsHeadwords(m.words, sources) && Defines(sources, m.words, m.defs) && Tiles(es, m.words, m.defs)
    requires files.dict == Joined(m.defs, |m.defs|) && WellFormed(ItemsOfEntries(es), 8)
    requires w in m.words
    ensures Answers(files, ItemsOfEntries(es), sources, w)
  {
    var k: nat :| k < |m.words| && m.words[k] == w;
    EntryAnswers(es, m, w, k);
    HeadwordAt(m, sources, w, k);
    FoundAnswers(files, ItemsOfEntries(es), sources, w, es[k].offset, es[k].size);
  }

  lemma UnknownWordAnswers(files: Files, es: seq<Entry>, m: Content, sources: seq<Source>, w: bytes)
    requires ListsHeadwords(m.words, sources) && Tiles(es, m.words, m.defs)
    requires WellFormed(ItemsOfEntries(es), 8) && w !in m.words
    ensures Answers(files, ItemsOfEntries(es), sources, w)
  {
    forall i | 0 <= i < |es| ensures ItemsOfEntries(es)[i].word != w {
      assert es[i].word == m.words[i] && m.words[i] in m.words;
    }
    ScanMisses(ItemsOfEntries(es), 0, |es|, w);
  }

  lemma FoundAnswers(files: Files, items: seq<Item>, sources: seq<Source>, w: bytes, o: nat, n: nat)
    requires WellFormed(items, 8) && LinearScan(items, w) == Found(o, n) && IsHeadword(sources, w)
    requires o + n <= |files.dict| && files.dict[o..o + n] == Definition(sources, w)
    ensures Answers(files, items, sources, w)
  {
  }

  lemma HeadwordAt(m: Content, sources: seq<Source>, w: bytes, k: nat)
    requires ListsHeadwords(m.words, sources) && Defines(sources, m.words, m.defs)
    requires k < |m.defs| && m.words[k] == w
    ensures IsHeadword(sources, w) && m.defs[k] == Definition(sources, w)
  {
    assert w in m.words;
  }

  lemma EntryAnswers(es: seq<Entry>, m: Content, w: bytes, k: nat)
    requires Tiles(es, m.words, m.defs) && k < |es| && m.words[k] == w && WellFormed(ItemsOfEntries(es), 8)
    requires forall i, j | 0 <= i < j < |m.words| :: m.words[i] != m.words[j]
    ensures LinearScan(ItemsOfEntries(es), w) == Found(es[k].offset, es[k].size)
    ensures es[k].offset + es[k].size <= |Joined(m.defs, |m.defs|)|
    ensures Joined(m.defs, |m.defs|)[es[k].offset..es[k].offset + es[k].size] == m.defs[k]
  {
    ScanFinds(ItemsOfEntries(es), 0, |es|, w, k);
    EntryPayload(es[k]);
    SliceIsDefinition(es, m.words, m.defs, k);
  }

  /** The synonym file: the kept synonyms under the new numbering, or no file if there are none. */
  ghost predicate SynonymsWritten(files: Files, m: Content) {
    && Narrow(m.syns)
    && files.syn == if m.syns == [] then None else Some(EncodeAll(ItemsOfSynonyms(m.syns)))
  }

  datatype Outcome = Merged(files: Files) | TooFew | BadSource | TooLarge

  /** Merges dictionaries. Success gives files that read back as a dictionary in which every word of
      any source, and no other, has all its definitions in source order, and in which every synonym
      that named an entry names the same headword. */
  method Merge(files: seq<Files>, lower: bytes -> bytes)
    returns (r: Outcome, ghost sources: seq<Source>, ghost m: Content, ghost es: seq<Entry>)
    ensures r.TooFew? <==> |files| < 2
    ensures r.BadSource? ==> forall all :: !AllHold(files, all)
    ensures r.Merged? || r.TooLarge? ==> AllHold(files, sources) && IsMergeOf(m, sources, lower)
    ensures r.TooLarge? ==> !SlicesFit(m.defs) || !Narrow(m.syns)
    ensures r.Merged? ==>
              && Holds(r.files, Source(es, r.files.dict, m.syns)) && Tiles(es, m.words, m.defs) && r.files.dict == Joined(m.defs, |m.defs|)
              && MeansTheSame(r.files, ItemsOfEntries(es), sources)
              && SynonymsWritten(r.files, m)
  {
    sources, m, es := [], Content([], [], []), [];
    if |files| < 2 {
      return TooFew, sources, m, es;
    }
    var read := ReadSources(files);
    if read.None? {
      return BadSource, sources, m, es;
    }
    sources := read.value;
    var content := MergeContent(read.value, lower);
    m := content;
    var dict, offsets := LayOut(content.defs);
    var laid := PackEntries(content.words, content.defs, offsets);
    if laid.None? || !Narrow(content.syns) {
      return TooLarge, sources, m, es;
    }
    es := laid.value;
    var idx := EncodeAll(ItemsOfEntries(laid.value));
    var syn := if content.syns == [] then None else Some(EncodeAll(ItemsOfSynonyms(content.syns)));
    r := Merged(Files(idx, dict, syn));
    WordsAreWhole(files, sources, m, es, lower);
    SynonymsAreWhole(files, sources, m, lower);
    forall w ensures Answers(r.files, ItemsOfEntries(es), sources, w) {
      EntriesAnswer(r.files, es, m, sources, w);
    }
  }

  lemma WordsAreWhole(files: seq<Files>, sources: seq<Source>, m: Content, es: seq<Entry>, lower: bytes -> bytes)
    requires AllHold(files, sources) && IsMergeOf(m, sources, lower) && Tiles(es, m.words, m.defs)
    ensures WellFormed(ItemsOfEntries(es), 8)
  {
    forall item | item in ItemsOfEntries(es) ensures 0 !in item.word && |item.payload| == 8 {
      var k :| 0 <= k < |es| && ItemsOfEntries(es)[k] == item;
      assert m.words[k] in m.words;
      HeadwordIsWhole(files, sources, m.words[k]);
    }
  }

  lemma HeadwordIsWhole(files: seq<Files>, sources: seq<Source>, w: bytes)
    requires AllHold(files, sources) && IsHeadword(sources, w)
    ensures 0 !in w
  {
    var ref :| Valid(sources, ref) && WordOf(sources, ref) == w;
    NoNuls(files[ref.src], sources[ref.src]);
    assert sources[ref.src].entries[ref.at] in sources[ref.src].entries;
  }

  lemma SynonymsAreWhole(files: seq<Files>, sources: seq<Source>, m: Content, lower: bytes -> bytes)
    requires AllHold(files, sources) && IsMergeOf(m, sources, lower) && Narrow(m.syns)
    ensures WellFormed(ItemsOfSynonyms(m.syns), 4)
  {
    forall item | item in ItemsOfSynonyms(m.syns) ensures 0 !in item.word && |item.payload| == 4 {
      var k :| 0 <= k < |m.syns| && ItemsOfSynonyms(m.syns)[k] == item;
      assert m.syns[k] in m.syns;
      SynonymsKeepTheirHeadwords(m, sources, lower);
      var s, i :| 0 <= s < |sources| && 0 <= i < |sources[s].syns|
                  && SameHeadword(m.syns[k], sources[s].syns[i], sources, m.words, s);
      NoNuls(files[s], sources[s]);
      assert sources[s].syns[i] in sources[s].syns;
    }
  }

  /** With ASCII folding for `lower`, a merged list is sorted as the lookup tables assume, so its own
      tables serve it whenever its samples are separated. */
  lemma MergedListIsSorted(m: Content, sources: seq<Source>, es: seq<Entry>)
    requires IsMergeOf(m, sources, Fold) && Tiles(es, m.words, m.defs) && WellFormed(ItemsOfEntries(es), 8)
    ensures SortedList(ItemsOfEntries(es))
  {
    forall i, j | 0 <= i <= j < |es|
      ensures Le(Key(ItemsOfEntries(es), i), Key(ItemsOfEntries(es), j))
      ensures i < j ==> ItemsOfEntries(es)[i].word != ItemsOfEntries(es)[j].word
    {
      WordKey(es, i);
      WordKey(es, j);
      if i < j { assert KeyLe(Fold, m.words[i], m.words[j]) && m.words[i] != m.words[j]; }
      PairInOrder(es, i, j);
    }
  }

  lemma PairInOrder(es: seq<Entry>, i: nat, j: nat)
    requires i < |es| && j < |es| && (i == j || KeyLe(Fold, es[i].word, es[j].word))
    ensures Le(Key(ItemsOfEntries(es), i), Key(ItemsOfEntries(es), j))
  {
    WordKey(es, i);
    WordKey(es, j);
    LeReflexive(Fold(es[i].word));
  }

  lemma WordKey(es: seq<Entry>, i: nat)
    requires i < |es|
    ensures Key(ItemsOfEntries(es), i) == Fold(es[i].word) && ItemsOfEntries(es)[i].word == es[i].word
  {
  }

  // ---------------------------------------------------------------- looking a word up in the merged files

  /** The files of a merge with ASCII folding, as `Merge` leaves them. */
  ghost predicate IsMerged(files: Files, es: seq<Entry>, m: Content, sources: seq<Source>) {
    && IsMergeOf(m, sources, Fold) && Tiles(es, m.words, m.defs)
    && WellFormed(ItemsOfEntries(es), 8) && EncodeAll(ItemsOfEntries(es)) == files.idx
    && files.dict == Joined(m.defs, |m.defs|)
  }

  /** Builds the tables for a merged index and looks a word up through them: whenever the samples are
      separated, the answer is the slice that holds all definitions of the word in source order, or
      nothing for a word no source has. Any answer stands beside the very word. */
  method LookUpMerged(files: Files, word: bytes, ghost es: seq<Entry>, ghost m: Content, ghost sources: seq<Source>)
    returns (r: Result)
    ensures r.Found? ==> IsExactMatch(files.idx, word, r)
    ensures IsMerged(files, es, m, sources) && |files.idx| < 0x1_0000_0000 && Separated(ItemsOfEntries(es)) ==>
              match r
              case Found(o, n) =>
                IsHeadword(sources, word) && o + n <= |files.dict| && files.dict[o..o + n] == Definition(sources, word)
              case NotFound => !IsHeadword(sources, word)
              case Raised => false
  {
    ghost var items := ItemsOfEntries(es);
    var oft := BuildOft(files.idx, 8, items);
    var cspt: Option<bytes> := None;
    if oft.Some? {
      cspt := BuildCspt(files.idx, oft.value, 8, items);
    }
    r := ScanIdx(files.idx, oft, cspt, word, items);
    if IsMerged(files, es, m, sources) && |files.idx| < 0x1_0000_0000 && Separated(items) {
      BuiltTablesServe(files, es, m, sources, oft, cspt);
      EntriesAnswer(files, es, m, sources, word);
    }
  }

  lemma BuiltTablesServe(files: Files, es: seq<Entry>, m: Content, sources: seq<Source>,
                         oft: Option<bytes>, cspt: Option<bytes>)
    requires IsMerged(files, es, m, sources) && Separated(ItemsOfEntries(es)) && IsCspt(cspt, ItemsOfEntries(es))
    ensures TablesServe(files.idx, oft, cspt, ItemsOfEntries(es))
  {
    MergedListIsSorted(m, sources, es);
    SamplesServe(cspt, ItemsOfEntries(es));
  }
}

/** Merging several StarDict dictionaries into one: every headword keeps all of its definitions and
    every synonym keeps its headword. Words are their UTF-8 bytes, and `lower` stands for `str.lower`. */
module DictionaryMerge {
  import opened Bytes
  import opened Wrappers
  import opened DictionaryIndex
  import opened DictionaryLookup

  // ---------------------------------------------------------------- parsing word lists

  /** Reads a whole word list; None where Python raises, for a missing NUL or a payload cut short.
      Exactly the encodings of well-formed lists are read, each as the list it encodes. */
  method ParseItems(data: bytes, skip: nat) returns (r: Option<seq<Item>>)
    ensures r.Some? ==> WellFormed(r.value, skip) && EncodeAll(r.value) == data
    ensures r.None? ==> forall items :: WellFormed(items, skip) ==> EncodeAll(items) != data
  {
    var items: seq<Item> := [];
    var pos := 0;
    while pos < |data|
      invariant pos <= |data| && data[..pos] == EncodeAll(items) && WellFormed(items, skip)
      decreases |data| - pos
    {
      var nul := NextNul(data, pos);
      if nul.None? || nul.value + 1 + skip > |data| {
        forall all | WellFormed(all, skip) ensures EncodeAll(all) != data {
          CutShort(data, skip, items, all, nul);
        }
        return None;
      }
      var end := nul.value + 1 + skip;
      var item := Item(data[pos..nul.value], data[nul.value + 1..end]);
      assert data[pos..end] == Encode(item);
      assert data[..end] == data[..pos] + data[pos..end];
      items := items + [item];
      pos := end;
    }
    assert data[..pos] == data;
    return Some(items);
  }

  /** A list whose bytes start another list's bytes starts that list. */
  lemma {:induction false} PrefixParses(items: seq<Item>, all: seq<Item>, skip: nat)
    requires WellFormed(items, skip) && WellFormed(all, skip) && EncodeAll(items) <= EncodeAll(all)
    ensures items <= all
  {
    if items != [] {
      EncodeAllOne(items);
      assert all != [];
      EncodeAllOne(all);
      FirstItem(EncodeAll(all), items[0], EncodeAll(items[1..]), all[0], EncodeAll(all[1..]), skip);
      PrefixParses(items[1..], all[1..], skip);
      assert items == [items[0]] + items[1..] && all == [all[0]] + all[1..];
    }
  }

  lemma FirstItem(data: bytes, a: Item, as': bytes, b: Item, bs: bytes, skip: nat)
    requires 0 !in a.word && 0 !in b.word && |a.payload| == |b.payload| == skip
    requires Encode(a) + as' <= data && data == Encode(b) + bs
    ensures a == b && as' <= bs
  {
    var n, m := |a.word|, |b.word|;
    assert data[n] == 0 && data[m] == 0;
    assert forall i | 0 <= i < n :: data[i] == a.word[i] && a.word[i] in a.word;
    assert forall i | 0 <= i < m :: data[i] == b.word[i] && b.word[i] in b.word;
    assert n == m;
    assert a.word == data[..n] == b.word;
    assert a.payload == data[n + 1..n + 1 + skip] == b.payload;
    assert as' == data[n + 1 + skip..][..|as'|] && bs == data[n + 1 + skip..];
  }

  lemma {:induction false} ListsAreInjective(a: seq<Item>, b: seq<Item>, skip: nat)
    requires WellFormed(a, skip) && WellFormed(b, skip) && EncodeAll(a) == EncodeAll(b)
    ensures a == b
  {
    PrefixParses(a, b, skip);
    PrefixParses(b, a, skip);
  }

  lemma SameLengthPrefix(items: seq<Item>, all: seq<Item>)
    requires items <= all
    ensures |items| < |all| || items == all
  {
    if |items| == |all| { assert items == all; }
  }

  lemma CutShort(data: bytes, skip: nat, items: seq<Item>, all: seq<Item>, nul: Option<nat>)
    requires WellFormed(items, skip) && WellFormed(all, skip) && EncodeAll(items) < data
    requires nul.Some? ==> IsNextNul(data, |EncodeAll(items)|, nul.value) && nul.value + 1 + skip > |data|
    requires nul.None? ==> forall i | |EncodeAll(items)| <= i < |data| :: data[i] != 0
    ensures EncodeAll(all) != data
  {
    if EncodeAll(all) == data {
      PrefixParses(items, all, skip);
      var k := |items|;
      SameLengthPrefix(items, all);
      assert all[..k] == items;
      HasNul(all, skip, k);
      if nul.Some? { WordEnds(all, skip, k, nul.value); }
    }
  }

  // ---------------------------------------------------------------- sources

  datatype Entry = Entry(word: bytes, offset: u32, size: u32)
  datatype Synonym = Synonym(word: bytes, target: nat)
  datatype Source = Source(entries: seq<Entry>, dict: bytes, syns: seq<Synonym>)

  /** Entry `at` of source `src`. */
  datatype Ref = Ref(src: nat, at: nat)

  predicate Valid(sources: seq<Source>, r: Ref) {
    r.src < |sources| && r.at < |sources[r.src].entries|
  }

  ghost function WordOf(sources: seq<Source>, r: Ref): bytes
    requires Valid(sources, r)
  {
    sources[r.src].entries[r.at].word
  }

  ghost predicate IsHeadword(sources: seq<Source>, w: bytes) {
    exists r :: Valid(sources, r) && WordOf(sources, r) == w
  }

  /** The definition bytes an entry names, as far as the source has them. */
  function TextOf(sources: seq<Source>, r: Ref): bytes
    requires Valid(sources, r)
  {
    var e := sources[r.src].entries[r.at];
    Slice(sources[r.src].dict, e.offset, e.offset + e.size)
  }

  /** The first `n` entries of source `s` with this word. */
  ghost function OccurrencesIn(sources: seq<Source>, s: nat, n: nat, w: bytes): seq<Ref>
    requires s < |sources| && n <= |sources[s].entries|
  {
    if n == 0 then []
    else OccurrencesIn(sources, s, n - 1, w) + if sources[s].entries[n - 1].word == w then [Ref(s, n - 1)] else []
  }

  /** All entries with this word: by source, then by place in the source. */
  ghost function Occurrences(sources: seq<Source>, s: nat, w: bytes): seq<Ref>
    requires s <= |sources|
  {
    if s == 0 then []
    else Occurrences(sources, s - 1, w) + OccurrencesIn(sources, s - 1, |sources[s - 1].entries|, w)
  }

  ghost function Texts(sources: seq<Source>, refs: seq<Ref>): bytes
    requires forall r :: r in refs ==> Valid(sources, r)
  {
    if refs == [] then []
    else
      assert refs[|refs| - 1] in refs;
      Texts(sources, refs[..|refs| - 1]) + TextOf(sources, refs[|refs| - 1])
  }

  /** What a word means in all the sources together. */
  ghost function Definition(sources: seq<Source>, w: bytes): bytes {
    OccurrencesExact(sources, |sources|, w);
    Texts(sources, Occurrences(sources, |sources|, w))
  }

  lemma {:induction false} OccurrencesInExact(sources: seq<Source>, s: nat, n: nat, w: bytes)
    requires s < |sources| && n <= |sources[s].entries|
    ensures forall r :: r in OccurrencesIn(sources, s, n, w) <==>
                        Valid(sources, r) && r.src == s && r.at < n && WordOf(sources, r) == w
  {
    if n > 0 { OccurrencesInExact(sources, s, n - 1, w); }
  }

  lemma {:induction false} OccurrencesExact(sources: seq<Source>, s: nat, w: bytes)
    requires s <= |sources|
    ensures forall r :: r in Occurrences(sources, s, w) <==> Valid(sources, r) && r.src < s && WordOf(sources, r) == w
  {
    if s > 0 {
      OccurrencesExact(sources, s - 1, w);
      OccurrencesInExact(sources, s - 1, |sources[s - 1].entries|, w);
    }
  }

  // ---------------------------------------------------------------- gathering headwords

  /** What the dictionary lists for a word. */
  function Listed(found: map<bytes, seq<Ref>>, w: bytes): seq<Ref> {
    if w in found then found[w] else []
  }

  /** The keys, in insertion order. */
  ghost predicate IsKeyOrder(order: seq<bytes>, found: map<bytes, seq<Ref>>) {
    && (forall w :: w in order <==> w in found)
    && (forall i, j | 0 <= i < j < |order| :: order[i] != order[j])
    && (forall w :: w in found ==> found[w] != [])
  }

  ghost predicate Gathered(found: map<bytes, seq<Ref>>, sources: seq<Source>, s: nat) {
    s <= |sources| && forall w :: Listed(found, w) == Occurrences(sources, s, w)
  }

  /** `word_entries.setdefault(word, []).append(ref)`. */
  function Append(found: map<bytes, seq<Ref>>, word: bytes, ref: Ref): map<bytes, seq<Ref>> {
    found[word := Listed(found, word) + [ref]]
  }

  lemma AppendKeepsOrder(order: seq<bytes>, found: map<bytes, seq<Ref>>, word: bytes, ref: Ref)
    requires IsKeyOrder(order, found)
    ensures IsKeyOrder(if word in found then order else order + [word], Append(found, word, ref))
  {
  }

  lemma SourceStarts(found: map<bytes, seq<Ref>>, sources: seq<Source>, s: nat)
    requires s < |sources| && Gathered(found, sources, s)
    ensures GatheredIn(found, sources, s, 0)
  {
  }

  lemma SourceEnds(found: map<bytes, seq<Ref>>, sources: seq<Source>, s: nat)
    requires s < |sources| && GatheredIn(found, sources, s, |sources[s].entries|)
    ensures Gathered(found, sources, s + 1)
  {
  }

  lemma NextGathered(order: seq<bytes>, found: map<bytes, seq<Ref>>, sources: seq<Source>, s: nat, n: nat)
    requires IsKeyOrder(order, found) && GatheredIn(found, sources, s, n) && n < |sources[s].entries|
    ensures var word := sources[s].entries[n].word;
            var found' := Append(found, word, Ref(s, n));
            && IsKeyOrder(if word in found then order else order + [word], found')
            && GatheredIn(found', sources, s, n + 1)
  {
    AppendKeepsOrder(order, found, sources[s].entries[n].word, Ref(s, n));
    AppendGathers(found, sources, s, n);
  }

  ghost predicate GatheredIn(found: map<bytes, seq<Ref>>, sources: seq<Source>, s: nat, n: nat) {
    && s < |sources| && n <= |sources[s].entries|
    && forall w :: Listed(found, w) == Occurrences(sources, s, w) + OccurrencesIn(sources, s, n, w)
  }

  lemma AppendGathers(found: map<bytes, seq<Ref>>, sources: seq<Source>, s: nat, n: nat)
    requires GatheredIn(found, sources, s, n) && n < |sources[s].entries|
    ensures GatheredIn(Append(found, sources[s].entries[n].word, Ref(s, n)), sources, s, n + 1)
  {
    forall w
      ensures Listed(Append(found, sources[s].entries[n].word, Ref(s, n)), w)
           == Occurrences(sources, s, w) + OccurrencesIn(sources, s, n + 1, w)
    {
      assert Listed(found, w) == Occurrences(sources, s, w) + OccurrencesIn(sources, s, n, w);
      AppendGathersWord(found, sources, s, n, w);
    }
  }

  lemma AppendGathersWord(found: map<bytes, seq<Ref>>, sources: seq<Source>, s: nat, n: nat, w: bytes)
    requires s < |sources| && n < |sources[s].entries|
    requires Listed(found, w) == Occurrences(sources, s, w) + OccurrencesIn(sources, s, n, w)
    ensures Listed(Append(found, sources[s].entries[n].word, Ref(s, n)), w)
         == Occurrences(sources, s, w) + OccurrencesIn(sources, s, n + 1, w)
  {
    AppendLists(found, sources[s].entries[n].word, Ref(s, n), w);
    OneMore(sources, s, n, w);
  }

  lemma AppendLists(found: map<bytes, seq<Ref>>, word: bytes, ref: Ref, w: bytes)
    ensures Listed(Append(found, word, ref), w) == Listed(found, w) + if word == w then [ref] else []
  {
  }

  lemma OneMore(sources: seq<Source>, s: nat, n: nat, w: bytes)
    requires s < |sources| && n < |sources[s].entries|
    ensures OccurrencesIn(sources, s, n + 1, w)
         == OccurrencesIn(sources, s, n, w) + if sources[s].entries[n].word == w then [Ref(s, n)] else []
  {
  }

  method GatherSource(sources: seq<Source>, s: nat, order0: seq<bytes>, found0: map<bytes, seq<Ref>>)
    returns (order: seq<bytes>, found: map<bytes, seq<Ref>>)
    requires s < |sources| && IsKeyOrder(order0, found0) && Gathered(found0, sources, s)
    ensures IsKeyOrder(order, found) && Gathered(found, sources, s + 1)
  {
    order, found := order0, found0;
    var entries := sources[s].entries;
    SourceStarts(found, sources, s);
    for n := 0 to |entries|
      invariant IsKeyOrder(order, found)
      invariant GatheredIn(found, sources, s, n)
    {
      var word := entries[n].word;
      NextGathered(order, found, sources, s, n);
      if word !in found {
        order := order + [word];
      }
      found := Append(found, word, Ref(s, n));
    }
    SourceEnds(found, sources, s);
  }

  method Gather(sources: seq<Source>) returns (order: seq<bytes>, found: map<bytes, seq<Ref>>)
    ensures IsKeyOrder(order, found) && Gathered(found, sources, |sources|)
  {
    order, found := [], map[];
    for s := 0 to |sources|
      invariant IsKeyOrder(order, found) && Gathered(found, sources, s)
    {
      order, found := GatherSource(sources, s, order, found);
    }
  }

  // ---------------------------------------------------------------- sorting by key

  /** The order of the key `(w.lower(), w)`. */
  predicate KeyLe(lower: bytes -> bytes, a: bytes, b: bytes) {
    if lower(a) == lower(b) then Le(a, b) else Le(lower(a), lower(b))
  }

  lemma {:induction false} LeAntisymmetric(a: bytes, b: bytes)
    requires Le(a, b) && Le(b, a)
    ensures a == b
  {
    if a != [] {
      LeAntisymmetric(a[1..], b[1..]);
      assert a == [a[0]] + a[1..] && b == [b[0]] + b[1..];
    }
  }

  lemma KeyLeTransitive(lower: bytes -> bytes, a: bytes, b: bytes, c: bytes)
    requires KeyLe(lower, a, b) && KeyLe(lower, b, c)
    ensures KeyLe(lower, a, c)
  {
    if lower(a) == lower(b) == lower(c) {
      LeTransitive(a, b, c);
    } else {
      if lower(a) == lower(b) { LeReflexive(lower(a)); }
      if lower(b) == lower(c) { LeReflexive(lower(c)); }
      LeTransitive(lower(a), lower(b), lower(c));
      if lower(a) == lower(c) { LeAntisymmetric(lower(a), lower(b)); }
    }
  }

  lemma KeyLeTotal(lower: bytes -> bytes, a: bytes, b: bytes)
    ensures KeyLe(lower, a, b) || KeyLe(lower, b, a)
    ensures KeyLe(lower, a, b) && KeyLe(lower, b, a) ==> a == b
  {
    LeTotal(a, b);
    LeTotal(lower(a), lower(b));
    if KeyLe(lower, a, b) && KeyLe(lower, b, a) {
      if lower(a) == lower(b) { LeAntisymmetric(a, b); } else { LeAntisymmetric(lower(a), lower(b)); }
    }
  }

  ghost predicate Sorted<T(!new)>(lower: bytes -> bytes, word: T -> bytes, xs: seq<T>) {
    forall i, j | 0 <= i < j < |xs| :: KeyLe(lower, word(xs[i]), word(xs[j]))
  }

  /** The elements with this word, in order. */
  function With<T>(word: T -> bytes, xs: seq<T>, w: bytes): seq<T> {
    if xs == [] then []
    else With(word, xs[..|xs| - 1], w) + if word(xs[|xs| - 1]) == w then [xs[|xs| - 1]] else []
  }

  lemma WithSnoc<T>(word: T -> bytes, xs: seq<T>, x: T, w: bytes)
    ensures With(word, xs + [x], w) == With(word, xs, w) + if word(x) == w then [x] else []
  {
    assert (xs + [x])[..|xs|] == xs;
  }

  /** Puts `x` after every element that is not above it. */
  function Insert<T>(lower: bytes -> bytes, word: T -> bytes, xs: seq<T>, x: T): seq<T> {
    if xs == [] || KeyLe(lower, word(xs[|xs| - 1]), word(x)) then xs + [x]
    else Insert(lower, word, xs[..|xs| - 1], x) + [xs[|xs| - 1]]
  }

  /** Python's `sorted` with the key `(w.lower(), w)`: a stable sort. */
  function Sort<T>(lower: bytes -> bytes, word: T -> bytes, xs: seq<T>): seq<T> {
    if xs == [] then [] else Insert(lower, word, Sort(lower, word, xs[..|xs| - 1]), xs[|xs| - 1])
  }

  lemma SortedSnoc<T(!new)>(lower: bytes -> bytes, word: T -> bytes, xs: seq<T>, x: T)
    requires Sorted(lower, word, xs) && forall y :: y in xs ==> KeyLe(lower, word(y), word(x))
    ensures Sorted(lower, word, xs + [x])
  {
  }

  lemma {:induction false} InsertPermutes<T>(lower: bytes -> bytes, word: T -> bytes, xs: seq<T>, x: T)
    ensures multiset(Insert(lower, word, xs, x)) == multiset(xs) + multiset{x}
  {
    var n := |xs| - 1;
    if n >= 0 && !KeyLe(lower, word(xs[n]), word(x)) {
      InsertPermutes(lower, word, xs[..n], x);
      assert xs == xs[..n] + [xs[n]];
    }
  }

  lemma {:induction false} InsertSorts<T(!new)>(lower: bytes -> bytes, word: T -> bytes, xs: seq<T>, x: T)
    requires Sorted(lower, word, xs)
    ensures Sorted(lower, word, Insert(lower, word, xs, x))
  {
    var n := |xs| - 1;
    if n >= 0 && KeyLe(lower, word(xs[n]), word(x)) {
      forall y | y in xs ensures KeyLe(lower, word(y), word(x)) {
        if word(y) != word(xs[n]) { KeyLeTransitive(lower, word(y), word(xs[n]), word(x)); }
      }
      SortedSnoc(lower, word, xs, x);
    } else if n >= 0 {
      var front := Insert(lower, word, xs[..n], x);
      InsertSorts(lower, word, xs[..n], x);
      InsertPermutes(lower, word, xs[..n], x);
      KeyLeTotal(lower, word(xs[n]), word(x));
      forall y | y in front ensures KeyLe(lower, word(y), word(xs[n])) {
        assert y in multiset(front);
        assert y in multiset(xs[..n]) || y == x;
      }
      SortedSnoc(lower, word, front, xs[n]);
    }
  }

  /** The new element comes last among those of its word. */
  lemma {:induction false} InsertIsStable<T>(lower: bytes -> bytes, word: T -> bytes, xs: seq<T>, x: T, w: bytes)
    ensures With(word, Insert(lower, word, xs, x), w) == With(word, xs + [x], w)
  {
    var n := |xs| - 1;
    WithSnoc(word, xs, x, w);
    if n >= 0 && !KeyLe(lower, word(xs[n]), word(x)) {
      KeyLeTotal(lower, word(x), word(x));
      InsertIsStable(lower, word, xs[..n], x, w);
      WithSnoc(word, Insert(lower, word, xs[..n], x), xs[n], w);
      WithSnoc(word, xs[..n], x, w);
    }
  }

  /** The sort is the stable one: sorted, a permutation, and the elements of each word keep their order. */
  lemma {:induction false} SortFacts<T(!new)>(lower: bytes -> bytes, word: T -> bytes, xs: seq<T>)
    ensures Sorted(lower, word, Sort(lower, word, xs)) && multiset(Sort(lower, word, xs)) == multiset(xs)
    ensures forall w :: With(word, Sort(lower, word, xs), w) == With(word, xs, w)
  {
    if xs != [] {
      var n := |xs| - 1;
      var front := Sort(lower, word, xs[..n]);
      SortFacts(lower, word, xs[..n]);
      InsertSorts(lower, word, front, xs[n]);
      InsertPermutes(lower, word, front, xs[n]);
      assert xs == xs[..n] + [xs[n]];
      forall w ensures With(word, Sort(lower, word, xs), w) == With(word, xs, w) {
        InsertIsStable(lower, word, front, xs[n], w);
        WithSnoc(word, front, xs[n], w);
      }
    }
  }

  // ---------------------------------------------------------------- sorted headwords

  function Self(w: bytes): bytes { w }

  ghost predicate Increasing(lower: bytes -> bytes, words: seq<bytes>) {
    forall i, j | 0 <= i < j < |words| :: KeyLe(lower, words[i], words[j]) && words[i] != words[j]
  }

  lemma {:induction false} DistinctMultiset(words: seq<bytes>, w: bytes)
    requires forall i, j | 0 <= i < j < |words| :: words[i] != words[j]
    ensures multiset(words)[w] <= 1
  {
    if words != [] {
      var n := |words| - 1;
      DistinctMultiset(words[..n], w);
      assert words == words[..n] + [words[n]];
      if words[n] == w { assert w !in words[..n]; }
    }
  }

  lemma TwiceCounted(words: seq<bytes>, i: nat, j: nat)
    requires i < j < |words| && words[i] == words[j]
    ensures multiset(words)[words[i]] >= 2
  {
    assert words == words[..j] + words[j..];
    assert words[i] in words[..j] && words[j..][0] == words[j];
    assert words[j] in words[j..];
  }

  lemma SortedHeadwords(lower: bytes -> bytes, order: seq<bytes>)
    requires forall i, j | 0 <= i < j < |order| :: order[i] != order[j]
    ensures Increasing(lower, Sort(lower, Self, order))
    ensures forall v :: v in Sort(lower, Self, order) <==> v in order
  {
    var words := Sort(lower, Self, order);
    SortFacts(lower, Self, order);
    forall v ensures v in words <==> v in order {
      assert v in multiset(words) <==> v in multiset(order);
    }
    forall i, j | 0 <= i < j < |words| ensures KeyLe(lower, words[i], words[j]) && words[i] != words[j] {
      assert KeyLe(lower, Self(words[i]), Self(words[j]));
      if words[i] == words[j] {
        TwiceCounted(words, i, j);
        DistinctMultiset(order, words[i]);
      }
    }
  }

  // ---------------------------------------------------------------- definitions and the new numbering

  /** The numbering sends the entries of the first `k` words, and no others, to their word's place. */
  ghost predicate Numbers(remap: map<Ref, nat>, sources: seq<Source>, words: seq<bytes>, k: nat) {
    && k <= |words|
    && (forall r :: r in remap ==> Valid(sources, r) && remap[r] < k && words[remap[r]] == WordOf(sources, r))
    && (forall r :: Valid(sources, r) && WordOf(sources, r) in words[..k] ==> r in remap)
  }

  method JoinTexts(sources: seq<Source>, refs: seq<Ref>, remap0: map<Ref, nat>, k: nat)
    returns (text: bytes, remap: map<Ref, nat>)
    requires forall r :: r in refs ==> Valid(sources, r)
    ensures text == Texts(sources, refs)
    ensures forall r :: r in remap <==> r in remap0 || r in refs
    ensures forall r :: r in remap ==> remap[r] == if r in refs then k else remap0[r]
  {
    text, remap := [], remap0;
    for i := 0 to |refs|
      invariant text == Texts(sources, refs[..i])
      invariant forall r :: r in remap <==> r in remap0 || r in refs[..i]
      invariant forall r :: r in remap ==> remap[r] == if r in refs[..i] then k else remap0[r]
    {
      assert refs[..i + 1] == refs[..i] + [refs[i]] && refs[..i + 1][..i] == refs[..i];
      assert refs[i] in refs;
      remap := remap[refs[i] := k];
      text := text + TextOf(sources, refs[i]);
    }
    assert refs[..|refs|] == refs;
  }

  ghost predicate Defines(sources: seq<Source>, words: seq<bytes>, defs: seq<bytes>) {
    |defs| <= |words| && forall k | 0 <= k < |defs| :: defs[k] == Definition(sources, words[k])
  }

  method Define(sources: seq<Source>, words: seq<bytes>, found: map<bytes, seq<Ref>>)
    returns (defs: seq<bytes>, remap: map<Ref, nat>)
    requires Gathered(found, sources, |sources|) && forall w :: w in words ==> w in found
    ensures |defs| == |words| && Defines(sources, words, defs) && Numbers(remap, sources, words, |words|)
  {
    defs, remap := [], map[];
    for k := 0 to |words|
      invariant |defs| == k && Defines(sources, words, defs) && Numbers(remap, sources, words, k)
    {
      assert words[k] in words;
      var text;
      text, remap := DefineWord(sources, words, found, remap, k);
      DefinesNext(sources, words, defs, text);
      defs := defs + [text];
    }
  }

  lemma DefinesNext(sources: seq<Source>, words: seq<bytes>, defs: seq<bytes>, text: bytes)
    requires Defines(sources, words, defs) && |defs| < |words| && text == Definition(sources, words[|defs|])
    ensures Defines(sources, words, defs + [text])
  {
    forall k | 0 <= k <= |defs| ensures (defs + [text])[k] == Definition(sources, words[k]) {
      if k < |defs| { assert defs[k] == Definition(sources, words[k]); }
    }
  }

  method DefineWord(sources: seq<Source>, words: seq<bytes>, found: map<bytes, seq<Ref>>, remap: map<Ref, nat>, k: nat)
    returns (text: bytes, remap': map<Ref, nat>)
    requires Gathered(found, sources, |sources|) && k < |words| && words[k] in found
    requires Numbers(remap, sources, words, k)
    ensures text == Definition(sources, words[k]) && Numbers(remap', sources, words, k + 1)
  {
    var w := words[k];
    assert found[w] == Listed(found, w);
    OccurrencesExact(sources, |sources|, w);
    text, remap' := JoinTexts(sources, found[w], remap, k);
    NumbersNext(remap, remap', sources, words, k);
  }

  lemma NumbersNext(remap: map<Ref, nat>, remap': map<Ref, nat>, sources: seq<Source>, words: seq<bytes>, k: nat)
    requires k < |words| && Numbers(remap, sources, words, k)
    requires forall r :: r in remap' <==> r in remap || (Valid(sources, r) && WordOf(sources, r) == words[k])
    requires forall r :: r in remap' ==>
                           remap'[r] == if Valid(sources, r) && WordOf(sources, r) == words[k] then k else remap[r]
    ensures Numbers(remap', sources, words, k + 1)
  {
    assert words[..k + 1] == words[..k] + [words[k]];
  }

  // ---------------------------------------------------------------- synonyms

  function SynonymWord(s: Synonym): bytes { s.word }

  ghost function PlaceOf(words: seq<bytes>, w: bytes): nat {
    if k: nat :| k < |words| && words[k] == w then k else 0
  }

  /** A synonym under the new numbering; one that names no entry of its source is dropped. */
  ghost function Retargeted(sources: seq<Source>, words: seq<bytes>, s: nat, syn: Synonym): seq<Synonym> {
    if Valid(sources, Ref(s, syn.target))
    then [Synonym(syn.word, PlaceOf(words, WordOf(sources, Ref(s, syn.target))))]
    else []
  }

  ghost function KeptIn(sources: seq<Source>, words: seq<bytes>, s: nat, n: nat): seq<Synonym>
    requires s < |sources| && n <= |sources[s].syns|
  {
    if n == 0 then []
    else KeptIn(sources, words, s, n - 1) + Retargeted(sources, words, s, sources[s].syns[n - 1])
  }

  /** The synonyms of the first `s` sources that name an entry, in source order. */
  ghost function Kept(sources: seq<Source>, words: seq<bytes>, s: nat): seq<Synonym>
    requires s <= |sources|
  {
    if s == 0 then []
    else Kept(sources, words, s - 1) + KeptIn(sources, words, s - 1, |sources[s - 1].syns|)
  }

  /** The headword list: every source word has one place in it. */
  ghost predicate ListsHeadwords(words: seq<bytes>, sources: seq<Source>) {
    && (forall i, j | 0 <= i < j < |words| :: words[i] != words[j])
    && (forall w :: w in words <==> IsHeadword(sources, w))
  }

  /** A synonym of source `s` that still names the headword it named there. */
  ghost predicate SameHeadword(x: Synonym, syn: Synonym, sources: seq<Source>, words: seq<bytes>, s: nat) {
    && x.word == syn.word
    && Valid(sources, Ref(s, syn.target))
    && x.target < |words| && words[x.target] == WordOf(sources, Ref(s, syn.target))
  }

  lemma RetargetedExact(sources: seq<Source>, words: seq<bytes>, s: nat, syn: Synonym)
    requires ListsHeadwords(words, sources)
    ensures forall x :: x in Retargeted(sources, words, s, syn) <==> SameHeadword(x, syn, sources, words, s)
  {
    var r := Ref(s, syn.target);
    if Valid(sources, r) { assert WordOf(sources, r) in words; }
  }

  lemma {:induction false} KeptInExact(sources: seq<Source>, words: seq<bytes>, s: nat, n: nat)
    requires s < |sources| && n <= |sources[s].syns| && ListsHeadwords(words, sources)
    ensures forall x :: x in KeptIn(sources, words, s, n) <==>
                        exists i :: 0 <= i < n && SameHeadword(x, sources[s].syns[i], sources, words, s)
  {
    if n > 0 {
      KeptInExact(sources, words, s, n - 1);
      RetargetedExact(sources, words, s, sources[s].syns[n - 1]);
    }
  }

  /** Kept are exactly the synonyms that name an entry, each pointing at the headword it named. */
  lemma {:induction false} KeptExact(sources: seq<Source>, words: seq<bytes>, k: nat)
    requires k <= |sources| && ListsHeadwords(words, sources)
    ensures forall x :: x in Kept(sources, words, k) <==>
                        exists s, i :: 0 <= s < k && 0 <= i < |sources[s].syns|
                                       && SameHeadword(x, sources[s].syns[i], sources, words, s)
  {
    if k > 0 {
      KeptExact(sources, words, k - 1);
      KeptInExact(sources, words, k - 1, |sources[k - 1].syns|);
    }
  }

  lemma RetargetedByNumber(remap: map<Ref, nat>, sources: seq<Source>, words: seq<bytes>, s: nat, syn: Synonym)
    requires Numbers(remap, sources, words, |words|) && ListsHeadwords(words, sources)
    ensures Retargeted(sources, words, s, syn)
         == if Ref(s, syn.target) in remap then [Synonym(syn.word, remap[Ref(s, syn.target)])] else []
  {
    var r := Ref(s, syn.target);
    assert words[..|words|] == words;
    if Valid(sources, r) {
      assert WordOf(sources, r) in words;
      assert r in remap && words[remap[r]] == WordOf(sources, r);
    }
  }

  method RetargetSource(sources: seq<Source>, ghost words: seq<bytes>, remap: map<Ref, nat>, s: nat)
    returns (kept: seq<Synonym>)
    requires s < |sources| && Numbers(remap, sources, words, |words|) && ListsHeadwords(words, sources)
    ensures kept == KeptIn(sources, words, s, |sources[s].syns|)
  {
    kept := [];
    for n := 0 to |sources[s].syns|
      invariant kept == KeptIn(sources, words, s, n)
    {
      var syn := sources[s].syns[n];
      RetargetedByNumber(remap, sources, words, s, syn);
      if Ref(s, syn.target) in remap {
        kept := kept + [Synonym(syn.word, remap[Ref(s, syn.target)])];
      }
    }
  }

  method Retarget(sources: seq<Source>, ghost words: seq<bytes>, remap: map<Ref, nat>) returns (kept: seq<Synonym>)
    requires Numbers(remap, sources, words, |words|) && ListsHeadwords(words, sources)
    ensures kept == Kept(sources, words, |sources|)
  {
    kept := [];
    for s := 0 to |sources|
      invariant kept == Kept(sources, words, s)
    {
      var more := RetargetSource(sources, words, remap, s);
      kept := kept + more;
    }
  }

  // ---------------------------------------------------------------- the merged content

  datatype Content = Content(words: seq<bytes>, defs: seq<bytes>, syns: seq<Synonym>)

  /** The one right content for these sources. */
  ghost predicate IsMergeOf(m: Content, sources: seq<Source>, lower: bytes -> bytes) {
    && Increasing(lower, m.words) && ListsHeadwords(m.words, sources)
    && |m.defs| == |m.words| && Defines(sources, m.words, m.defs)
    && Sorted(lower, SynonymWord, m.syns)
    && forall w :: With(SynonymWord, m.syns, w) == With(SynonymWord, Kept(sources, m.words, |sources|), w)
  }

  lemma {:induction false} WithExact<T(!new)>(word: T -> bytes, xs: seq<T>, w: bytes)
    ensures forall x :: x in With(word, xs, w) <==> x in xs && word(x) == w
  {
    if xs != [] {
      var n := |xs| - 1;
      WithExact(word, xs[..n], w);
      assert xs == xs[..n] + [xs[n]];
    }
  }

  /** The merged synonyms are exactly the source synonyms that name an entry, each pointing at the
      headword it named in its own source. */
  lemma SynonymsKeepTheirHeadwords(m: Content, sources: seq<Source>, lower: bytes -> bytes)
    requires IsMergeOf(m, sources, lower)
    ensures forall x :: x in m.syns <==>
                        exists s, i :: 0 <= s < |sources| && 0 <= i < |sources[s].syns|
                                       && SameHeadword(x, sources[s].syns[i], sources, m.words, s)
  {
    var kept := Kept(sources, m.words, |sources|);
    forall x ensures x in m.syns <==> x in kept {
      WithExact(SynonymWord, m.syns, x.word);
      WithExact(SynonymWord, kept, x.word);
      assert With(SynonymWord, m.syns, x.word) == With(SynonymWord, kept, x.word);
      assert SynonymWord(x) == x.word;
    }
    KeptExact(sources, m.words, |sources|);
  }

  lemma LastOfWord<T(!new)>(lower: bytes -> bytes, word: T -> bytes, xs: seq<T>, w: bytes)
    requires Sorted(lower, word, xs) && With(word, xs, w) != []
    ensures xs != [] && KeyLe(lower, w, word(xs[|xs| - 1]))
  {
    WithExact(word, xs, w);
    var x := With(word, xs, w)[0];
    assert x in xs;
    var n := |xs| - 1;
    var i :| 0 <= i <= n && xs[i] == x;
    if i == n { KeyLeTotal(lower, w, w); } else { assert KeyLe(lower, word(xs[i]), word(xs[n])); }
  }

  /** Only one list is sorted and has these elements for each word in this order. */
  lemma {:induction false} StableSortUnique<T(!new)>(lower: bytes -> bytes, word: T -> bytes, a: seq<T>, b: seq<T>)
    requires Sorted(lower, word, a) && Sorted(lower, word, b) && Alike(word, a, b)
    ensures a == b
  {
    if b != [] { AlikeNonEmpty(word, b, a); }
    if a != [] {
      AlikeNonEmpty(word, a, b);
      var n, m := |a| - 1, |b| - 1;
      SameLastWord(lower, word, a, b);
      SameWithoutLast(word, a, b);
      StableSortUnique(lower, word, a[..n], b[..m]);
      assert a == a[..n] + [a[n]] && b == b[..m] + [b[m]];
    }
  }

  lemma SameLastWord<T(!new)>(lower: bytes -> bytes, word: T -> bytes, a: seq<T>, b: seq<T>)
    requires Sorted(lower, word, a) && Sorted(lower, word, b) && Alike(word, a, b) && a != [] && b != []
    ensures word(a[|a| - 1]) == word(b[|b| - 1])
  {
    var x, y := word(a[|a| - 1]), word(b[|b| - 1]);
    AlikeNonEmpty(word, a, b);
    AlikeNonEmpty(word, b, a);
    LastOfWord(lower, word, b, x);
    LastOfWord(lower, word, a, y);
    KeyLeTotal(lower, x, y);
  }

  ghost predicate Alike<T(!new)>(word: T -> bytes, a: seq<T>, b: seq<T>) {
    forall w :: With(word, a, w) == With(word, b, w)
  }

  lemma AlikeNonEmpty<T(!new)>(word: T -> bytes, a: seq<T>, b: seq<T>)
    requires a != [] && (Alike(word, a, b) || Alike(word, b, a))
    ensures b != [] && With(word, b, word(a[|a| - 1])) != []
  {
    assert With(word, a, word(a[|a| - 1])) != [];
  }

  lemma SameWithoutLast<T(!new)>(word: T -> bytes, a: seq<T>, b: seq<T>)
    requires a != [] && b != [] && word(a[|a| - 1]) == word(b[|b| - 1]) && Alike(word, a, b)
    ensures a[|a| - 1] == b[|b| - 1] && Alike(word, a[..|a| - 1], b[..|b| - 1])
  {
    var n, m := |a| - 1, |b| - 1;
    assert With(word, a, word(a[n])) == With(word, b, word(a[n]));
    SnocInjective(With(word, a[..n], word(a[n])), a[n], With(word, b[..m], word(a[n])), b[m]);
    forall w ensures With(word, a[..n], w) == With(word, b[..m], w) {
      assert With(word, a, w) == With(word, b, w);
      if w != word(a[n]) {
        assert With(word, a[..n], w) == With(word, a, w) && With(word, b[..m], w) == With(word, b, w);
      }
    }
  }

  lemma SnocInjective<T>(s: seq<T>, x: T, t: seq<T>, y: T)
    requires s + [x] == t + [y]
    ensures s == t && x == y
  {
    assert |s| == |t| && (s + [x])[|s|] == x && (t + [y])[|t|] == y;
    assert s == (s + [x])[..|s|] == t;
  }

  /** Nothing about the content is left open: two merges of the same sources are equal. */
  lemma MergeIsUnique(m: Content, m': Content, sources: seq<Source>, lower: bytes -> bytes)
    requires IsMergeOf(m, sources, lower) && IsMergeOf(m', sources, lower)
    ensures m == m'
  {
    WordsAreUnique(lower, m.words, m'.words);
    assert m.defs == m'.defs;
    StableSortUnique(lower, SynonymWord, m.syns, m'.syns);
  }

  lemma WordsAreUnique(lower: bytes -> bytes, a: seq<bytes>, b: seq<bytes>)
    requires Increasing(lower, a) && Increasing(lower, b) && forall w :: w in a <==> w in b
    ensures a == b
  {
    forall w ensures With(Self, a, w) == With(Self, b, w) {
      OneOfWord(lower, a, w);
      OneOfWord(lower, b, w);
    }
    StableSortUnique(lower, Self, a, b);
  }

  lemma {:induction false} OneOfWord(lower: bytes -> bytes, words: seq<bytes>, w: bytes)
    requires Increasing(lower, words)
    ensures With(Self, words, w) == if w in words then [w] else []
  {
    if words != [] {
      var n := |words| - 1;
      OneOfWord(lower, words[..n], w);
      assert words == words[..n] + [words[n]];
      assert words[n] !in words[..n];
    }
  }

  method MergeContent(sources: seq<Source>, lower: bytes -> bytes) returns (m: Content)
    ensures IsMergeOf(m, sources, lower)
  {
    var order, found := Gather(sources);
    var words := Sort(lower, Self, order);
    SortedHeadwords(lower, order);
    GatheredHeadwords(order, found, sources, words);
    var defs, remap := Define(sources, words, found);
    var kept := Retarget(sources, words, remap);
    SortFacts(lower, SynonymWord, kept);
    return Content(words, defs, Sort(lower, SynonymWord, kept));
  }

  lemma GatheredHeadwords(order: seq<bytes>, found: map<bytes, seq<Ref>>, sources: seq<Source>, words: seq<bytes>)
    requires IsKeyOrder(order, found) && Gathered(found, sources, |sources|)
    requires forall v :: v in words <==> v in order
    requires forall i, j | 0 <= i < j < |words| :: words[i] != words[j]
    ensures ListsHeadwords(words, sources) && forall w :: w in words ==> w in found
  {
    forall w ensures w in words <==> IsHeadword(sources, w) {
      OccurrencesExact(sources, |sources|, w);
      assert Listed(found, w) == Occurrences(sources, |sources|, w);
      if w in found { assert found[w][0] in Listed(found, w); }
    }
  }
}

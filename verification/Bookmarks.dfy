/** The bookmark record and the list merges of the store. */
module Bookmarks {
  import opened Bytes

  const CHAPTER_TITLE_MAX := 48
  const SNIPPET_MAX := 64
  const MAX_BOOKMARKS := 1024
  const PDF_MAX_PER_BOOK := 64
  const NO_ID: u16 := 0xFFFF

  type Title = s: bytes | |s| == CHAPTER_TITLE_MAX witness Zeros(CHAPTER_TITLE_MAX)
  type Snippet = s: bytes | |s| == SNIPPET_MAX witness Zeros(SNIPPET_MAX)

  // `progress` is the bit pattern of the source's 32-bit float.
  datatype Bookmark = Bookmark(
    spineIndex: u16,
    progress: u32,
    timestamp: u32,
    chapterTitle: Title,
    paragraphIndex: u16,
    snippet: Snippet)

  /** The float `==` of IEEE 754 single precision, on bit patterns: no NaN equals anything,
      the two zeros are equal, otherwise the patterns decide. */
  predicate IsNaN(bits: u32) { bits % 0x8000_0000 > 0x7F80_0000 }

  predicate FloatEq(a: u32, b: u32) {
    !IsNaN(a) && !IsNaN(b) && (a == b || (a % 0x8000_0000 == 0 && b % 0x8000_0000 == 0))
  }

  /** Ids 0 and 65535 never identify a bookmark. */
  predicate ValidId(id: u16) { id != 0 && id != NO_ID }

  predicate SameIdentity(a: Bookmark, b: Bookmark) {
    ValidId(a.paragraphIndex) && a.paragraphIndex == b.paragraphIndex
  }

  predicate SameExactly(a: Bookmark, b: Bookmark) {
    && a.spineIndex == b.spineIndex && FloatEq(a.progress, b.progress) && a.timestamp == b.timestamp
    && a.paragraphIndex == b.paragraphIndex && a.chapterTitle == b.chapterTitle && a.snippet == b.snippet
  }

  ghost predicate HasIdentity(list: seq<Bookmark>, b: Bookmark) {
    exists x :: x in list && SameIdentity(x, b)
  }

  ghost predicate AllIdsValid(list: seq<Bookmark>) {
    forall b :: b in list ==> ValidId(b.paragraphIndex)
  }

  ghost predicate DistinctIds(list: seq<Bookmark>) {
    forall i, j | 0 <= i < j < |list| :: list[i].paragraphIndex != list[j].paragraphIndex
  }

  /** `b` is still findable in `list`: by id when its id is an identity, by value otherwise. */
  ghost predicate Present(b: Bookmark, list: seq<Bookmark>) {
    if ValidId(b.paragraphIndex) then HasIdentity(list, b) else b in list
  }

  // ---------------------------------------------------------------- searches

  method FindIdentity(list: seq<Bookmark>, b: Bookmark) returns (index: nat)
    ensures index <= |list|
    ensures index < |list| ==> SameIdentity(list[index], b)
    ensures forall i | 0 <= i < index :: !SameIdentity(list[i], b)
    ensures index < |list| <==> HasIdentity(list, b)
  {
    index := 0;
    while index < |list| && !SameIdentity(list[index], b)
      invariant index <= |list|
      invariant forall i | 0 <= i < index :: !SameIdentity(list[i], b)
    {
      index := index + 1;
    }
  }

  // ---------------------------------------------------------------- merge (destination wins)

  /** What merging leaves: `dst` followed by the records of `src` that no earlier record
      identifies, cut where the list reaches MAX_BOOKMARKS. */
  ghost function Merge(dst: seq<Bookmark>, src: seq<Bookmark>): seq<Bookmark>
    decreases |src|
  {
    if src == [] then dst
    else if HasIdentity(dst, src[0]) then Merge(dst, src[1..])
    else if |dst| >= MAX_BOOKMARKS then dst
    else Merge(dst + [src[0]], src[1..])
  }

  method MergeBookmarks(dst: seq<Bookmark>, src: seq<Bookmark>) returns (merged: seq<Bookmark>, mergedAny: bool)
    ensures merged == Merge(dst, src)
    ensures mergedAny <==> merged != dst
  {
    merged, mergedAny := dst, false;
    var i := 0;
    while i < |src|
      invariant 0 <= i <= |src|
      invariant Merge(dst, src) == Merge(merged, src[i..])
      invariant dst <= merged
      invariant mergedAny <==> |merged| > |dst|
    {
      assert src[i..][1..] == src[i + 1..];
      var found := FindIdentity(merged, src[i]);
      if found == |merged| {
        if |merged| >= MAX_BOOKMARKS {
          break;
        }
        merged := merged + [src[i]];
        mergedAny := true;
      }
      i := i + 1;
    }
  }

  lemma {:induction false} MergeKeepsDestination(dst: seq<Bookmark>, src: seq<Bookmark>)
    ensures dst <= Merge(dst, src)
    ensures forall b :: b in Merge(dst, src) ==> b in dst || b in src
    decreases |src|
  {
    if src != [] {
      MergeKeepsDestination(dst, src[1..]);
      MergeKeepsDestination(dst + [src[0]], src[1..]);
    }
  }

  lemma {:induction false} MergeBounded(dst: seq<Bookmark>, src: seq<Bookmark>)
    requires |dst| <= MAX_BOOKMARKS
    ensures |Merge(dst, src)| <= MAX_BOOKMARKS
    decreases |src|
  {
    if src != [] {
      if HasIdentity(dst, src[0]) {
        MergeBounded(dst, src[1..]);
      } else if |dst| < MAX_BOOKMARKS {
        MergeBounded(dst + [src[0]], src[1..]);
      }
    }
  }

  /** What a merge leaves out: from the first unidentified record on that meets a full list. */
  ghost function Dropped(dst: seq<Bookmark>, src: seq<Bookmark>): seq<Bookmark>
    decreases |src|
  {
    if src == [] then []
    else if HasIdentity(dst, src[0]) then Dropped(dst, src[1..])
    else if |dst| >= MAX_BOOKMARKS then src
    else Dropped(dst + [src[0]], src[1..])
  }

  /** Every source record is present in the merge, the record itself when nothing identified it and
      its namesake otherwise, or it was dropped at the cut-off; below the cut-off nothing is. */
  lemma {:induction false} MergeKeepsSource(dst: seq<Bookmark>, src: seq<Bookmark>)
    ensures forall b :: b in src ==> Present(b, Merge(dst, src)) || b in Dropped(dst, src)
    ensures forall b :: b in Dropped(dst, src) ==> b in src
    ensures Dropped(dst, src) != [] ==> |Merge(dst, src)| >= MAX_BOOKMARKS
    decreases |src|
  {
    if src != [] {
      var named := HasIdentity(dst, src[0]);
      assert forall b :: b in src <==> b == src[0] || b in src[1..];
      if named || |dst| < MAX_BOOKMARKS {
        var next := if named then dst else dst + [src[0]];
        assert Merge(dst, src) == Merge(next, src[1..]);
        assert Dropped(dst, src) == Dropped(next, src[1..]);
        MergeKeepsSource(next, src[1..]);
        MergeKeepsDestination(next, src[1..]);
        assert Present(src[0], next) by {
          if !named { assert src[0] in next; }
        }
        PresentInLonger(src[0], next, Merge(next, src[1..]));
      }
    }
  }

  lemma PresentInLonger(b: Bookmark, short: seq<Bookmark>, long: seq<Bookmark>)
    requires Present(b, short)
    requires forall x :: x in short ==> x in long
    ensures Present(b, long)
  {
  }

  lemma PresentTrans(b: Bookmark, first: seq<Bookmark>, second: seq<Bookmark>)
    requires Present(b, first)
    requires forall x :: x in first ==> Present(x, second)
    ensures Present(b, second)
  {
    if ValidId(b.paragraphIndex) {
      var x :| x in first && SameIdentity(x, b);
      assert Present(x, second);
      var y :| y in second && SameIdentity(y, x);
      assert SameIdentity(y, b);
    }
  }

  /** Merging a list whose records are all identified already changes nothing. */
  lemma {:induction false} MergeAbsorbs(dst: seq<Bookmark>, src: seq<Bookmark>)
    requires forall b :: b in src ==> HasIdentity(dst, b)
    ensures Merge(dst, src) == dst
    decreases |src|
  {
    if src != [] { MergeAbsorbs(dst, src[1..]); }
  }

  lemma {:induction false} MergeKeepsDistinct(dst: seq<Bookmark>, src: seq<Bookmark>)
    requires DistinctIds(dst) && AllIdsValid(dst) && AllIdsValid(src)
    ensures DistinctIds(Merge(dst, src)) && AllIdsValid(Merge(dst, src))
    decreases |src|
  {
    if src != [] {
      if !HasIdentity(dst, src[0]) && |dst| < MAX_BOOKMARKS {
        assert forall i | 0 <= i < |dst| :: !SameIdentity(dst[i], src[0]);
        MergeKeepsDistinct(dst + [src[0]], src[1..]);
      } else {
        MergeKeepsDistinct(dst, src[1..]);
      }
    }
  }

  /** Repeating a merge that stayed below the cut-off is harmless exactly when every source id
      is an identity: a record with id 0 or 65535 is appended again each time. */
  lemma MergeIdempotentIff(dst: seq<Bookmark>, src: seq<Bookmark>)
    requires |Merge(dst, src)| < MAX_BOOKMARKS
    ensures Merge(Merge(dst, src), src) == Merge(dst, src) <==> AllIdsValid(src)
  {
    var once := Merge(dst, src);
    if AllIdsValid(src) {
      MergeKeepsSource(dst, src);
      assert forall b :: b in src ==> Present(b, once);
      MergeAbsorbs(once, src);
    } else {
      MergeGrows(once, src);
    }
  }

  lemma {:induction false} MergeGrows(dst: seq<Bookmark>, src: seq<Bookmark>)
    requires |dst| < MAX_BOOKMARKS && !AllIdsValid(src)
    ensures |Merge(dst, src)| > |dst|
    decreases |src|
  {
    if HasIdentity(dst, src[0]) {
      assert src == [src[0]] + src[1..];
      MergeGrows(dst, src[1..]);
    } else {
      MergeKeepsDestination(dst + [src[0]], src[1..]);
    }
  }

  /** A version 2 file has no paragraph ids, so its only record has id 65535: merging it twice,
      as a crash between rewrite and delete makes the next load do, leaves the record twice. */
  lemma MergeTwiceDuplicates(b: Bookmark)
    requires b.paragraphIndex == NO_ID
    ensures Merge([], [b]) == [b] && Merge(Merge([], [b]), [b]) == [b, b]
  {
    assert !HasIdentity([], b) && !HasIdentity([b], b);
    assert Merge([b], []) == [b] && Merge([b, b], []) == [b, b];
    assert [b] + [b] == [b, b] && [] + [b] == [b];
    assert [b][1..] == [];
  }

  /** How many records no id identifies. */
  ghost function Nameless(list: seq<Bookmark>): nat {
    if list == [] then 0 else (if ValidId(list[0].paragraphIndex) then 0 else 1) + Nameless(list[1..])
  }

  lemma {:induction false} NamelessSnoc(list: seq<Bookmark>, b: Bookmark)
    ensures Nameless(list + [b]) == Nameless(list) + if ValidId(b.paragraphIndex) then 0 else 1
  {
    if list == [] {
      assert [] + [b] == [b] && [b][1..] == [];
    } else {
      NamelessSnoc(list[1..], b);
      assert (list + [b])[1..] == list[1..] + [b];
    }
  }

  lemma {:induction false} NamelessZero(list: seq<Bookmark>)
    ensures Nameless(list) == 0 <==> AllIdsValid(list)
  {
    if list != [] {
      NamelessZero(list[1..]);
      assert forall b :: b in list <==> b == list[0] || b in list[1..];
    }
  }

  /** Below the cut-off a merge keeps every nameless record of both lists. */
  lemma {:induction false} MergeCountsNameless(dst: seq<Bookmark>, src: seq<Bookmark>)
    ensures |Merge(dst, src)| <= |dst| + |src|
    ensures |Merge(dst, src)| < MAX_BOOKMARKS ==> Nameless(Merge(dst, src)) == Nameless(dst) + Nameless(src)
    decreases |src|
  {
    if src != [] {
      if HasIdentity(dst, src[0]) {
        MergeCountsNameless(dst, src[1..]);
      } else if |dst| < MAX_BOOKMARKS {
        MergeCountsNameless(dst + [src[0]], src[1..]);
        NamelessSnoc(dst, src[0]);
      }
    }
  }

  /** Starting a merge from a beginning of its result, all of whose new records have ids, gives the
      same result. */
  lemma {:induction false} MergeFromPrefix(dst: seq<Bookmark>, c: seq<Bookmark>, src: seq<Bookmark>)
    requires dst <= c <= Merge(dst, src) && AllIdsValid(c[|dst|..])
    ensures Merge(c, src) == Merge(dst, src)
    decreases |src|
  {
    if src != [] && c != dst {
      if HasIdentity(dst, src[0]) {
        assert HasIdentity(c, src[0]);
        MergeFromPrefix(dst, c, src[1..]);
      } else {
        var next := dst + [src[0]];
        MergeKeepsDestination(next, src[1..]);
        assert c[|dst|..][0] == src[0] && next <= c;
        assert c[|dst|..][1..] == c[|next|..];
        assert src[0] in c && SameIdentity(src[0], src[0]);
        MergeFromPrefix(next, c, src[1..]);
      }
    }
  }

  /** The list is a beginning of what `src` alone gives, and merging `src` into it gives just that, or it
      is all of it already: a record without an id would be appended again, unless the cut-off is in the way. */
  ghost predicate BeginsMergeOf(c: seq<Bookmark>, src: seq<Bookmark>) {
    c <= Merge([], src) && (c == Merge([], src) || AllIdsValid(c)
                            || (|src| >= MAX_BOOKMARKS && Merge(c, src) == Merge([], src)))
  }

  lemma BeginsMergeIff(c: seq<Bookmark>, src: seq<Bookmark>)
    ensures BeginsMergeOf(c, src) <==> c == Merge([], src) || Merge(c, src) == Merge([], src)
  {
    var alone := Merge([], src);
    if c <= alone && AllIdsValid(c) {
      assert c[0..] == c;
      MergeFromPrefix([], c, src);
    }
    if Merge(c, src) == alone {
      MergeKeepsDestination(c, src);
      MergeCountsNameless([], src);
      MergeCountsNameless(c, src);
      NamelessZero(c);
    }
  }

  // ---------------------------------------------------------------- merge (source wins)

  /** The first record of `list` identified by `b` replaced by `b`. */
  ghost function ReplaceFirst(list: seq<Bookmark>, b: Bookmark): (r: seq<Bookmark>)
    ensures |r| == |list|
  {
    if list == [] then []
    else if SameIdentity(list[0], b) then [b] + list[1..]
    else [list[0]] + ReplaceFirst(list[1..], b)
  }

  datatype MergeOutcome = Merged(list: seq<Bookmark>) | TooMany

  ghost function MergeAuthoritative(dst: seq<Bookmark>, src: seq<Bookmark>): MergeOutcome
    decreases |src|
  {
    if src == [] then Merged(dst)
    else if HasIdentity(dst, src[0]) then MergeAuthoritative(ReplaceFirst(dst, src[0]), src[1..])
    else if |dst| >= MAX_BOOKMARKS then TooMany
    else MergeAuthoritative(dst + [src[0]], src[1..])
  }

  lemma {:induction false} ReplaceFirstIs(list: seq<Bookmark>, b: Bookmark, index: nat)
    requires index < |list| && SameIdentity(list[index], b)
    requires forall i | 0 <= i < index :: !SameIdentity(list[i], b)
    ensures ReplaceFirst(list, b) == list[index := b]
  {
    if index > 0 {
      ReplaceFirstIs(list[1..], b, index - 1);
      assert list[index := b] == [list[0]] + list[1..][index - 1 := b];
    }
  }

  method MergeAuthoritativeBookmarks(dst: seq<Bookmark>, src: seq<Bookmark>)
    returns (ok: bool, merged: seq<Bookmark>)
    ensures ok ==> MergeAuthoritative(dst, src) == Merged(merged)
    ensures !ok ==> MergeAuthoritative(dst, src) == TooMany
  {
    merged := dst;
    var i := 0;
    while i < |src|
      invariant 0 <= i <= |src|
      invariant MergeAuthoritative(dst, src) == MergeAuthoritative(merged, src[i..])
    {
      assert src[i..][1..] == src[i + 1..];
      var found := FindIdentity(merged, src[i]);
      if found < |merged| {
        ReplaceFirstIs(merged, src[i], found);
        merged := merged[found := src[i]];
      } else {
        if |merged| >= MAX_BOOKMARKS {
          return false, merged;
        }
        merged := merged + [src[i]];
      }
      i := i + 1;
    }
    return true, merged;
  }

  method ContainsAllBookmarks(dst: seq<Bookmark>, src: seq<Bookmark>) returns (all: bool)
    ensures all <==> ContainsAll(dst, src)
  {
    var i := 0;
    while i < |src|
      invariant 0 <= i <= |src|
      invariant forall k | 0 <= k < i :: ContainsExactly(dst, src[k])
    {
      var j := 0;
      while j < |dst| && !SameExactly(dst[j], src[i])
        invariant 0 <= j <= |dst|
        invariant forall k | 0 <= k < j :: !SameExactly(dst[k], src[i])
      {
        j := j + 1;
      }
      if j == |dst| {
        assert !ContainsExactly(dst, src[i]) && src[i] in src;
        return false;
      }
      assert dst[j] in dst;
      i := i + 1;
    }
    return true;
  }

  ghost predicate ContainsExactly(list: seq<Bookmark>, b: Bookmark) {
    exists a :: a in list && SameExactly(a, b)
  }

  ghost predicate ContainsAll(dst: seq<Bookmark>, src: seq<Bookmark>) {
    forall e :: e in src ==> ContainsExactly(dst, e)
  }

  ghost predicate NoNaN(list: seq<Bookmark>) {
    forall b :: b in list ==> !IsNaN(b.progress)
  }

  ghost function Ids(list: seq<Bookmark>): set<u16> {
    set b | b in list :: b.paragraphIndex
  }

  /** `b` sits in `list` and nothing before it has its identity: lookups by id find `b`. */
  ghost predicate Found(list: seq<Bookmark>, b: Bookmark) {
    exists k :: FoundAt(list, b, k)
  }

  ghost predicate FoundAt(list: seq<Bookmark>, b: Bookmark, k: int) {
    0 <= k < |list| && list[k] == b && forall i | 0 <= i < k :: !SameIdentity(list[i], b)
  }

  ghost function MergeStep(dst: seq<Bookmark>, b: Bookmark): seq<Bookmark> {
    if HasIdentity(dst, b) then ReplaceFirst(dst, b) else dst + [b]
  }

  lemma MergeStepFacts(dst: seq<Bookmark>, b: Bookmark)
    requires ValidId(b.paragraphIndex)
    ensures var r := MergeStep(dst, b);
            && Found(r, b)
            && |dst| <= |r|
            && (forall i | 0 <= i < |dst| :: r[i].paragraphIndex == dst[i].paragraphIndex)
            && (forall i | 0 <= i < |dst| && dst[i].paragraphIndex != b.paragraphIndex :: r[i] == dst[i])
            && (forall x :: Found(dst, x) && x.paragraphIndex != b.paragraphIndex ==> Found(r, x))
  {
    var r := MergeStep(dst, b);
    var k := FirstIdentity(dst, b);
    if HasIdentity(dst, b) {
      ReplaceFirstIs(dst, b, k);
    }
    assert FoundAt(r, b, k);
    forall x | Found(dst, x) && x.paragraphIndex != b.paragraphIndex ensures Found(r, x) {
      var j :| FoundAt(dst, x, j);
      assert FoundAt(r, x, j);
    }
  }

  ghost function FirstIdentity(list: seq<Bookmark>, b: Bookmark): (k: nat)
    ensures k <= |list| && (k < |list| <==> HasIdentity(list, b))
    ensures k < |list| ==> SameIdentity(list[k], b)
    ensures forall i | 0 <= i < k :: !SameIdentity(list[i], b)
  {
    if list == [] then 0
    else if SameIdentity(list[0], b) then 0
    else
      assert forall x :: x in list <==> x == list[0] || x in list[1..];
      1 + FirstIdentity(list[1..], b)
  }

  /** Source wins: with valid distinct source ids, lookups by id in the result find every source
      record itself; every destination slot keeps its id, and its record unless the source names it. */
  lemma {:induction false} AuthoritativeMergeFacts(dst: seq<Bookmark>, src: seq<Bookmark>)
    requires MergeAuthoritative(dst, src).Merged?
    requires AllIdsValid(src) && DistinctIds(src)
    ensures var r := MergeAuthoritative(dst, src).list;
            && (forall b :: b in src ==> Found(r, b))
            && (forall x :: Found(dst, x) && x.paragraphIndex !in Ids(src) ==> Found(r, x))
            && |dst| <= |r|
            && (forall i | 0 <= i < |dst| :: r[i].paragraphIndex == dst[i].paragraphIndex)
            && (forall i | 0 <= i < |dst| && dst[i].paragraphIndex !in Ids(src) :: r[i] == dst[i])
    decreases |src|
  {
    if src != [] {
      var head, tail := src[0], src[1..];
      assert src == [head] + tail;
      MergeStepFacts(dst, head);
      assert forall k | 0 <= k < |tail| :: tail[k] == src[k + 1];
      AuthoritativeMergeFacts(MergeStep(dst, head), tail);
      assert Ids(src) == {head.paragraphIndex} + Ids(tail);
      assert head.paragraphIndex !in Ids(tail);
    }
  }

  /** Repeating the copy changes nothing. */
  lemma {:induction false} AuthoritativeMergeAbsorbs(dst: seq<Bookmark>, src: seq<Bookmark>)
    requires AllIdsValid(src) && forall b :: b in src ==> Found(dst, b)
    ensures MergeAuthoritative(dst, src) == Merged(dst)
    decreases |src|
  {
    if src != [] {
      assert Found(dst, src[0]);
      var k :| FoundAt(dst, src[0], k);
      ReplaceFirstIs(dst, src[0], k);
      assert dst[k := src[0]] == dst;
      AuthoritativeMergeAbsorbs(dst, src[1..]);
    }
  }

  /** Copy then verify: after an authoritative merge the containment check accepts exactly when no
      source progress is NaN (a NaN never equals itself), and a second copy is the identity. */
  lemma CopyThenVerify(dst: seq<Bookmark>, src: seq<Bookmark>)
    requires MergeAuthoritative(dst, src).Merged?
    requires AllIdsValid(src) && DistinctIds(src)
    ensures var r := MergeAuthoritative(dst, src).list;
            && (ContainsAll(r, src) <==> NoNaN(src))
            && MergeAuthoritative(r, src) == Merged(r)
  {
    var r := MergeAuthoritative(dst, src).list;
    AuthoritativeMergeFacts(dst, src);
    AuthoritativeMergeAbsorbs(r, src);
    if NoNaN(src) {
      forall e | e in src ensures ContainsExactly(r, e) {
        assert Found(r, e);
        assert e in r && SameExactly(e, e);
      }
    } else {
      var e :| e in src && IsNaN(e.progress);
      assert !ContainsExactly(r, e);
    }
  }
}

/** Moving a PDF book's bookmarks to another path: write the destination, then delete the source. */
module BookmarkMove {
  import opened Bytes
  import opened Wrappers
  import opened Bookmarks
  import opened BookmarkCodec
  import opened HalStorage
  import opened TransactionParts
  import opened StoreViews
  import opened BookmarkStore

  /** The four stores a move touches and the two book paths they are tagged with. */
  datatype Move = Move(
    sourceCurrent: StorePath, sourceLegacy: StorePath,
    destinationCurrent: StorePath, destinationLegacy: StorePath,
    oldPath: BookPath, newPath: BookPath)
  {
    ghost function SourceList(f: Files): Option<seq<Bookmark>> {
      BookList(f, sourceCurrent, sourceLegacy, oldPath)
    }

    ghost function DestinationList(f: Files): Option<seq<Bookmark>> {
      BookList(f, destinationCurrent, destinationLegacy, newPath)
    }

    /** The legacy key of the old path names the new path's own store, a file the cleanup deletes. */
    predicate Collides() {
      sourceLegacy == destinationCurrent && sourceLegacy != sourceCurrent
    }

    predicate HasSource(f: Files) {
      View(f, sourceCurrent).Some? || View(f, sourceLegacy).Some?
    }

    /** The source's records, merged into the destination's current list unless that file is the
        source itself. */
    ghost function Gathered(f: Files): Option<seq<Bookmark>> {
      if sourceCurrent == destinationCurrent then SourceList(f)
      else Into(View(f, destinationCurrent), newPath, SourceList(f))
    }

    /** The list the move writes: the gathered records merged into the destination's legacy list. */
    ghost function Plan(f: Files): Option<seq<Bookmark>> {
      if destinationLegacy == destinationCurrent then Gathered(f)
      else Into(View(f, destinationLegacy), newPath, Gathered(f))
    }

    /** There is something to move, it can be read, and the cap of 64 records lets it be written. */
    ghost predicate Writes(f: Files) {
      HasSource(f) && Plan(f).Some? && |Plan(f).value| <= PDF_MAX_PER_BOOK
    }

    /** The source records that merging into the destination's current list leaves out. */
    ghost function CutOff(f: Files): seq<Bookmark> {
      var c := StoreList(f, destinationCurrent, newPath);
      if sourceCurrent == destinationCurrent || View(f, destinationCurrent).None? || c.None? || SourceList(f).None?
      then []
      else Dropped(c.value, SourceList(f).value)
    }

    /** The records of the destination's separate legacy store. */
    ghost function LegacyRecords(f: Files): Option<seq<Bookmark>> {
      LegacyList(f, destinationCurrent, destinationLegacy, newPath)
    }

    /** Whatever the cut-off leaves out was gathered under the same identity or stands in the
        destination's legacy list. */
    ghost predicate Lossless(f: Files) {
      forall b :: b in CutOff(f) ==>
        || (Gathered(f).Some? && Present(b, Gathered(f).value))
        || (LegacyRecords(f).Some? && Present(b, LegacyRecords(f).value))
    }

    /** Every store shows what it showed at the start. */
    ghost predicate Unmoved(f: Files, f0: Files) {
      && View(f, sourceCurrent) == View(f0, sourceCurrent)
      && View(f, sourceLegacy) == View(f0, sourceLegacy)
      && View(f, destinationCurrent) == View(f0, destinationCurrent)
      && View(f, destinationLegacy) == View(f0, destinationLegacy)
    }

    /** The destination shows the planned list; its legacy store is as it was or gone. */
    ghost predicate Moved(f: Files, f0: Files) {
      && Writes(f0)
      && View(f, destinationCurrent).Some? && StoreList(f, destinationCurrent, newPath) == Plan(f0)
      && LegacyKeptOrGone(f, f0, destinationCurrent, destinationLegacy)
    }

    ghost predicate Underway(f: Files, f0: Files) { Unmoved(f, f0) || Moved(f, f0) }

    ghost predicate AllUnderway(h: seq<Event>, from: nat, f0: Files) {
      forall i | from <= i < |h| :: Underway(h[i].after, f0)
    }

    /** The record can still be found: through the old path or through the new one. */
    ghost predicate Kept(b: Bookmark, f: Files) {
      || (SourceList(f).Some? && Present(b, SourceList(f).value))
      || (DestinationList(f).Some? && Present(b, DestinationList(f).value))
    }

    /** No record of either book is lost. */
    ghost predicate Safe(f: Files, f0: Files) {
      && (SourceList(f0).Some? ==> forall b :: b in SourceList(f0).value ==> Kept(b, f))
      && (DestinationList(f0).Some? ==>
            && DestinationList(f).Some?
            && forall b :: b in DestinationList(f0).value ==> Present(b, DestinationList(f).value))
    }
  }

  /** `list` merged into what a store holds; a store that is not there is not merged with. */
  ghost function Into(v: Option<bytes>, path: bytes, list: Option<seq<Bookmark>>): Option<seq<Bookmark>> {
    if v.None? then list else Combine(ViewList(v, path), list)
  }

  ghost predicate AllPresent(list: seq<Bookmark>, target: seq<Bookmark>) {
    forall b :: b in list ==> Present(b, target)
  }

  lemma AllPresentTrans(list: seq<Bookmark>, middle: seq<Bookmark>, target: seq<Bookmark>)
    requires AllPresent(list, middle) && AllPresent(middle, target)
    ensures AllPresent(list, target)
  {
    forall b | b in list ensures Present(b, target) { PresentTrans(b, middle, target); }
  }

  /** Merging keeps what the store holds, and below the cut-off the list as well; nothing else comes in. */
  lemma IntoKeeps(v: Option<bytes>, path: bytes, list: Option<seq<Bookmark>>)
    requires Into(v, path, list).Some?
    ensures list.Some? && ViewList(v, path).Some?
    ensures var held, merged := ViewList(v, path).value, Into(v, path, list).value;
            && AllPresent(held, merged)
            && (|merged| < MAX_BOOKMARKS ==> AllPresent(list.value, merged))
            && forall b :: b in merged ==> b in held || b in list.value
  {
    match v
    case None =>
      assert Into(v, path, list) == list && ViewList(v, path) == Some([]);
      SelfPresent(list.value);
    case Some(_) =>
      var held := ViewList(v, path).value;
      var merged := Merge(held, list.value);
      assert Into(v, path, list) == Some(merged);
      MergeKeepsDestination(held, list.value);
      MergeKeepsSource(held, list.value);
      SelfPresent(held);
      forall b | b in held ensures Present(b, merged) { PresentInLonger(b, held, merged); }
  }

  /** The cut-off leaves out source records only, and every other one is gathered. */
  lemma GatheredKeeps(m: Move, f: Files)
    requires m.Gathered(f).Some?
    ensures m.SourceList(f).Some?
    ensures forall b :: b in m.SourceList(f).value ==> Present(b, m.Gathered(f).value) || b in m.CutOff(f)
    ensures forall b :: b in m.CutOff(f) ==> b in m.SourceList(f).value
    ensures m.CutOff(f) != [] ==> |m.Gathered(f).value| >= MAX_BOOKMARKS
  {
    if m.sourceCurrent == m.destinationCurrent || View(f, m.destinationCurrent).None? {
      assert m.Gathered(f) == m.SourceList(f);
      SelfPresent(m.SourceList(f).value);
    } else {
      MergeKeepsSource(StoreList(f, m.destinationCurrent, m.newPath).value, m.SourceList(f).value);
    }
  }

  /** A plan below the cut-off finds everything gathered and everything in the destination's legacy
      store, and nothing else is in it. */
  lemma PlanHolds(m: Move, f: Files)
    requires m.Plan(f).Some?
    ensures m.Gathered(f).Some? && m.LegacyRecords(f).Some?
    ensures |m.Plan(f).value| < MAX_BOOKMARKS ==>
              AllPresent(m.Gathered(f).value, m.Plan(f).value) && AllPresent(m.LegacyRecords(f).value, m.Plan(f).value)
    ensures forall b :: b in m.Plan(f).value ==> b in m.Gathered(f).value || b in m.LegacyRecords(f).value
  {
    if m.destinationLegacy == m.destinationCurrent {
      SelfPresent(m.Gathered(f).value);
    } else {
      IntoKeeps(View(f, m.destinationLegacy), m.newPath, m.Gathered(f));
    }
  }

  /** The list a move writes finds every record of both destination stores, and every source record
      exactly if the move is lossless. */
  lemma PlanKeepsAll(m: Move, f: Files)
    requires m.Plan(f).Some? && |m.Plan(f).value| < MAX_BOOKMARKS
    ensures m.SourceList(f).Some?
    ensures AllPresent(m.SourceList(f).value, m.Plan(f).value) <==> m.Lossless(f)
    ensures m.LegacyRecords(f).Some? && AllPresent(m.LegacyRecords(f).value, m.Plan(f).value)
    ensures m.sourceCurrent != m.destinationCurrent ==>
              var c := StoreList(f, m.destinationCurrent, m.newPath);
              c.Some? && AllPresent(c.value, m.Plan(f).value)
  {
    PlanHolds(m, f);
    GatheredKeeps(m, f);
    var source, gathered, legacy := m.SourceList(f).value, m.Gathered(f).value, m.LegacyRecords(f).value;
    var plan := m.Plan(f).value;
    forall b | Present(b, gathered) || Present(b, legacy) ensures Present(b, plan) {
      if Present(b, gathered) { PresentTrans(b, gathered, plan); } else { PresentTrans(b, legacy, plan); }
    }
    forall b | Present(b, plan) ensures Present(b, gathered) || Present(b, legacy) {
      PresentInEither(b, plan, gathered, legacy);
    }
    if m.sourceCurrent != m.destinationCurrent {
      IntoKeeps(View(f, m.destinationCurrent), m.newPath, m.SourceList(f));
      AllPresentTrans(StoreList(f, m.destinationCurrent, m.newPath).value, gathered, plan);
    }
  }

  lemma PresentInEither(b: Bookmark, list: seq<Bookmark>, first: seq<Bookmark>, second: seq<Bookmark>)
    requires Present(b, list) && forall x :: x in list ==> x in first || x in second
    ensures Present(b, first) || Present(b, second)
  {
    if ValidId(b.paragraphIndex) {
      var x :| x in list && SameIdentity(x, b);
      assert x in first || x in second;
    }
  }

  /** Valid ids, distinct in the destination's current list, never meet the cut-off: a plan short
      enough to be written was never cut. */
  lemma DistinctIdsAreUncut(m: Move, f: Files)
    requires m.Writes(f) && m.SourceList(f).Some? && AllIdsValid(m.SourceList(f).value)
    requires var c := StoreList(f, m.destinationCurrent, m.newPath);
             c.Some? ==> DistinctIds(c.value) && AllIdsValid(c.value)
    ensures m.CutOff(f) == [] && m.Lossless(f)
  {
    if m.CutOff(f) != [] {
      PlanHolds(m, f);
      GatheredKeeps(m, f);
      MergeKeepsDistinct(StoreList(f, m.destinationCurrent, m.newPath).value, m.SourceList(f).value);
      CountById(m.Gathered(f).value, m.Plan(f).value);
      assert false;
    }
  }

  /** Pigeonhole: a list whose distinct valid ids all occur in another is no longer than it. */
  lemma {:induction false} CountById(list: seq<Bookmark>, other: seq<Bookmark>)
    requires DistinctIds(list) && AllIdsValid(list) && AllPresent(list, other)
    ensures |list| <= |other|
  {
    if list != [] {
      var b := list[|list| - 1];
      assert Present(b, other);
      var x :| x in other && SameIdentity(x, b);
      var k :| 0 <= k < |other| && other[k] == x;
      var rest := other[..k] + other[k + 1..];
      forall c | c in list[..|list| - 1] ensures Present(c, rest) {
        var i :| 0 <= i < |list| - 1 && list[i] == c;
        assert list[i].paragraphIndex != list[|list| - 1].paragraphIndex;
        assert c in list && Present(c, other);
        var y :| y in other && SameIdentity(y, c);
        assert y in rest;
      }
      CountById(list[..|list| - 1], rest);
    }
  }

  /** A book's current-version file in a store of its own. */
  ghost function FileOf(base: StorePath, path: BookPath, list: seq<Bookmark>): Files
    requires |list| <= MAX_BOOKMARKS
  {
    map[Name(base, Canonical) := EncodeFile([], [], path, list, VERSION)]
  }

  lemma FileOfViews(base: StorePath, path: BookPath, list: seq<Bookmark>)
    requires |list| <= MAX_BOOKMARKS
    ensures var f := FileOf(base, path, list);
            && View(f, base) == Some(EncodeFile([], [], path, list, VERSION))
            && forall other :: other != base ==> View(f, other) == None
  {
  }

  /** A card with nothing but the new book's current store has only that list to show. */
  lemma AloneLists(m: Move, f: Files, list: seq<Bookmark>)
    requires |list| <= MAX_BOOKMARKS && AllTerminated(list) && m.oldPath != m.newPath
    requires f == FileOf(m.destinationCurrent, m.newPath, list)
    ensures m.DestinationList(f) == Some(list)
    ensures StoreList(f, m.destinationCurrent, m.newPath) == Some(list)
    ensures m.SourceList(f) == if m.destinationCurrent in {m.sourceCurrent, m.sourceLegacy} then None else Some([])
  {
    FileOfViews(m.destinationCurrent, m.newPath, list);
    FileReads(f, m.destinationCurrent, m.newPath, list, m.newPath);
    FileReads(f, m.destinationCurrent, m.newPath, list, m.oldPath);
    assert Merge(list, []) == list;
  }

  lemma FileReads(f: Files, base: StorePath, path: BookPath, list: seq<Bookmark>, other: bytes)
    requires |list| <= MAX_BOOKMARKS && AllTerminated(list)
    requires View(f, base) == Some(EncodeFile([], [], path, list, VERSION))
    ensures StoreList(f, base, other) == if other == path then Some(list) else None
  {
    FileRoundTrip([], [], path, other, list, VERSION);
    CurrentVersionStoresAll(list);
  }

  ghost function FullOf(x: Bookmark): seq<Bookmark> { seq(MAX_BOOKMARKS, _ => x) }

  /** A book with the one record `b` is to be moved onto a book whose current store is full of
      namesakes of `x`, and whose legacy store holds `x` as well. */
  ghost function CrowdedCard(m: Move, b: Bookmark, x: Bookmark): Files {
    FileOf(m.sourceCurrent, m.oldPath, [b]) + FileOf(m.destinationCurrent, m.newPath, FullOf(x))
    + FileOf(m.destinationLegacy, m.newPath, [x])
  }

  /** The move's stores are four different ones, or three with the source's two keys agreeing. */
  predicate Apart(m: Move) {
    && m.sourceCurrent != m.destinationCurrent && m.sourceCurrent != m.destinationLegacy
    && m.destinationCurrent != m.destinationLegacy
    && m.sourceLegacy != m.destinationCurrent && m.sourceLegacy != m.destinationLegacy
  }

  lemma CrowdedViews(m: Move, b: Bookmark, x: Bookmark)
    requires Apart(m)
    ensures var f := CrowdedCard(m, b, x);
            && View(f, m.sourceCurrent) == Some(EncodeFile([], [], m.oldPath, [b], VERSION))
            && View(f, m.destinationCurrent) == Some(EncodeFile([], [], m.newPath, FullOf(x), VERSION))
            && View(f, m.destinationLegacy) == Some(EncodeFile([], [], m.newPath, [x], VERSION))
            && (m.sourceLegacy != m.sourceCurrent ==> View(f, m.sourceLegacy) == None)
  {
  }

  lemma CrowdedLists(m: Move, b: Bookmark, x: Bookmark)
    requires Apart(m) && Terminated(b) && Terminated(x)
    ensures var f := CrowdedCard(m, b, x);
            && m.SourceList(f) == Some([b]) && m.LegacyRecords(f) == Some([x])
            && StoreList(f, m.destinationCurrent, m.newPath) == Some(FullOf(x))
            && m.HasSource(f) && View(f, m.destinationCurrent).Some? && View(f, m.destinationLegacy).Some?
  {
    var f := CrowdedCard(m, b, x);
    CrowdedViews(m, b, x);
    FileReads(f, m.sourceCurrent, m.oldPath, [b], m.oldPath);
    FileReads(f, m.destinationCurrent, m.newPath, FullOf(x), m.newPath);
    FileReads(f, m.destinationLegacy, m.newPath, [x], m.newPath);
    assert Merge([b], []) == [b];
  }

  /** Repeated ids let the cut-off lose a record without the cap of 64 noticing: the full list swallows
      `b` and collapses to one record. The move is carried out, and the new book alone is left, without `b`. */
  lemma CutOffLosesRecord(m: Move, b: Bookmark, x: Bookmark)
    requires Apart(m) && m.oldPath != m.newPath && Terminated(b) && Terminated(x)
    requires ValidId(b.paragraphIndex) && ValidId(x.paragraphIndex) && b.paragraphIndex != x.paragraphIndex
    ensures var f0, f := CrowdedCard(m, b, x), FileOf(m.destinationCurrent, m.newPath, [x]);
            && m.Writes(f0) && m.SourceList(f0) == Some([b])
            && m.Moved(f, f0) && m.SourceList(f) == Some([]) && m.DestinationList(f) == Some([x])
            && !m.Kept(b, f) && !m.Safe(f, f0)
  {
    var f0, f := CrowdedCard(m, b, x), FileOf(m.destinationCurrent, m.newPath, [x]);
    CrowdedPlan(m, b, x);
    FileOfViews(m.destinationCurrent, m.newPath, [x]);
    AloneLists(m, f, [x]);
    assert b in [b] && !Present(b, [x]) && !Present(b, []);
  }

  lemma CrowdedPlan(m: Move, b: Bookmark, x: Bookmark)
    requires Apart(m) && Terminated(b) && Terminated(x)
    requires ValidId(b.paragraphIndex) && ValidId(x.paragraphIndex) && b.paragraphIndex != x.paragraphIndex
    ensures var f := CrowdedCard(m, b, x);
            m.SourceList(f) == Some([b]) && m.Writes(f) && m.Plan(f) == Some([x])
  {
    var f, full := CrowdedCard(m, b, x), FullOf(x);
    CrowdedLists(m, b, x);
    assert !HasIdentity(full, b);
    assert Merge(full, [b]) == full;
    assert m.Gathered(f) == Some(full);
    assert x in [x];
    MergeAbsorbs([x], full);
  }

  /** Who wins in a move: the destination's legacy list comes first, so on a shared id its record
      replaces the destination's current one. Loading the same two stores keeps the current one. */
  lemma DestinationLegacyOutranksCurrent(m: Move, f: Files, b: Bookmark, stale: Bookmark)
    requires m.sourceCurrent != m.destinationCurrent && m.destinationLegacy != m.destinationCurrent
    requires m.SourceList(f) == Some([])
    requires View(f, m.destinationCurrent).Some? && View(f, m.destinationLegacy).Some?
    requires StoreList(f, m.destinationCurrent, m.newPath) == Some([b])
    requires StoreList(f, m.destinationLegacy, m.newPath) == Some([stale])
    requires SameIdentity(b, stale)
    ensures m.DestinationList(f) == Some([b]) && m.Plan(f) == Some([stale])
  {
    MergeNamesake(b, stale);
    MergeNamesake(stale, b);
    assert Merge([b], []) == [b];
  }

  // ---------------------------------------------------------------- safety of the states

  lemma UnmovedIsSafe(m: Move, f: Files, f0: Files)
    requires m.Unmoved(f, f0)
    ensures m.Safe(f, f0)
  {
    assert m.SourceList(f) == m.SourceList(f0) && m.DestinationList(f) == m.DestinationList(f0);
    if m.SourceList(f0).Some? {
      SelfPresent(m.SourceList(f0).value);
    }
    if m.DestinationList(f0).Some? {
      SelfPresent(m.DestinationList(f0).value);
    }
  }

  lemma SelfPresent(list: seq<Bookmark>)
    ensures AllPresent(list, list)
  {
    forall b | b in list ensures Present(b, list) {
      if ValidId(b.paragraphIndex) { assert SameIdentity(b, b); }
    }
  }

  /** A shared current store that either book can read, when both can be read, is not there. */
  lemma SharedStoreIsEmpty(m: Move, f: Files)
    requires m.sourceCurrent == m.destinationCurrent && m.oldPath != m.newPath
    requires m.SourceList(f).Some? && m.DestinationList(f).Some?
    ensures StoreList(f, m.destinationCurrent, m.newPath) == Some([])
  {
    if View(f, m.destinationCurrent).Some? {
      OnePathOnly(View(f, m.destinationCurrent).value, m.oldPath, m.newPath);
      assert false;
    }
  }

  lemma MovedIsSafe(m: Move, f: Files, f0: Files)
    requires m.Moved(f, f0) && m.Lossless(f0) && m.oldPath != m.newPath
    ensures m.Safe(f, f0)
    ensures m.SourceList(f0).Some? && m.DestinationList(f).Some?
    ensures AllPresent(m.SourceList(f0).value, m.DestinationList(f).value)
  {
    var plan := m.Plan(f0).value;
    PlanKeepsAll(m, f0);
    var l := LegacyList(f, m.destinationCurrent, m.destinationLegacy, m.newPath);
    assert l.Some?;
    var d := Merge(plan, l.value);
    assert m.DestinationList(f) == Some(d);
    MergeKeepsDestination(plan, l.value);
    forall list | AllPresent(list, plan) ensures AllPresent(list, d) {
      forall b | b in list ensures Present(b, d) { PresentInLonger(b, plan, d); }
    }
    if m.DestinationList(f0).Some? {
      var c0 := StoreList(f0, m.destinationCurrent, m.newPath).value;
      if m.sourceCurrent == m.destinationCurrent {
        SharedStoreIsEmpty(m, f0);
      }
      var l0 := LegacyList(f0, m.destinationCurrent, m.destinationLegacy, m.newPath).value;
      MergeKeepsDestination(c0, l0);
      assert AllPresent(c0, d) && AllPresent(l0, d);
    }
  }

  /** The card after a move in which nothing failed, with the old path's stores gone. */
  ghost function Finished(m: Move, f0: Files): Files
    requires m.Writes(f0)
  {
    FileOf(m.destinationCurrent, m.newPath, m.Plan(f0).value)
  }

  lemma FinishedFacts(m: Move, f0: Files)
    requires m.Writes(f0) && m.oldPath != m.newPath
    ensures var f := Finished(m, f0);
            && m.Moved(f, f0) && m.DestinationList(f) == m.Plan(f0)
            && (m.SourceList(f) == None || m.SourceList(f) == Some([]))
  {
    var f := Finished(m, f0);
    PlanFacts(m, f0);
    FileOfViews(m.destinationCurrent, m.newPath, m.Plan(f0).value);
    AloneLists(m, f, m.Plan(f0).value);
  }

  /** Every state a writing move may leave behind keeps every record exactly if the move is lossless. */
  lemma MoveSafeIff(m: Move, f0: Files)
    requires m.Writes(f0) && m.oldPath != m.newPath
    ensures (forall f :: m.Underway(f, f0) ==> m.Safe(f, f0)) <==> m.Lossless(f0)
  {
    if m.Lossless(f0) {
      forall f | m.Underway(f, f0) ensures m.Safe(f, f0) {
        UnderwayIsSafe(m, f, f0);
      }
    } else {
      PlanKeepsAll(m, f0);
      var b :| b in m.SourceList(f0).value && !Present(b, m.Plan(f0).value);
      var f := Finished(m, f0);
      FinishedFacts(m, f0);
      assert m.Underway(f, f0) && !m.Kept(b, f);
    }
  }

  /** A move that writes nothing loses nothing; one that writes loses nothing if it is lossless. */
  lemma UnderwayIsSafe(m: Move, f: Files, f0: Files)
    requires m.Underway(f, f0) && m.oldPath != m.newPath && (m.Writes(f0) ==> m.Lossless(f0))
    ensures m.Safe(f, f0)
  {
    if m.Unmoved(f, f0) {
      UnmovedIsSafe(m, f, f0);
    } else {
      MovedIsSafe(m, f, f0);
    }
  }

  // ---------------------------------------------------------------- the move itself

  lemma UnderwayJoin(m: Move, h: seq<Event>, h': seq<Event>, from: nat, f0: Files)
    requires from <= |h| && h <= h'
    requires m.AllUnderway(h, from, f0) && m.AllUnderway(h', |h|, f0)
    ensures m.AllUnderway(h', from, f0)
  {
    forall i | from <= i < |h'| ensures m.Underway(h'[i].after, f0) {
      if i < |h| { assert h'[i] == h[i]; }
    }
  }

  lemma SameViewsUnmoved(m: Move, p: StorePath, q: StorePath, f: Files, mid: Files, f0: Files)
    requires SameViews(f, mid, p, q) && m.Unmoved(mid, f0)
    ensures m.Unmoved(f, f0)
  {
  }

  lemma SameOutsideClean(f: Files, mid: Files, p: StorePath, q: StorePath, base: StorePath)
    requires SameOutside(f, mid, p, q) && Clean(mid, base)
    requires Clean(f, p) && Clean(f, q)
    ensures Clean(f, base)
  {
  }

  /** Recovers the two stores of one path. */
  method RecoverSide(disk: Storage, scratch: Store, m: Move, p: StorePath, q: StorePath, ghost f0: Files)
    returns (ok: bool)
    requires disk.Valid() && p != Unset && q != Unset && m.Unmoved(disk.files, f0)
    modifies disk, scratch`storeFilePath
    ensures disk.Valid() && old(disk.history) <= disk.history && disk.faults >= old(disk.faults)
    ensures m.AllUnderway(disk.history, |old(disk.history)|, f0) && m.Unmoved(disk.files, f0)
    ensures ok ==> Clean(disk.files, p) && Clean(disk.files, q)
    ensures ok ==> forall base :: Clean(old(disk.files), base) ==> Clean(disk.files, base)
    ensures !ok ==> disk.faults > old(disk.faults)
  {
    ghost var mid := disk.files;
    ok := scratch.RecoverStores(disk, p, q);
    SameViewsUnmoved(m, p, q, disk.files, mid, f0);
    forall i | |old(disk.history)| <= i < |disk.history| ensures m.Underway(disk.history[i].after, f0) {
      SameViewsUnmoved(m, p, q, disk.history[i].after, mid, f0);
    }
    if ok {
      forall base | Clean(mid, base) ensures Clean(disk.files, base) {
        SameOutsideClean(disk.files, mid, p, q, base);
      }
    }
  }

  /** Merges `list` into what a destination store holds, if it is there. */
  method MergeIntoStore(disk: Storage, scratch: Store, base: StorePath, list: seq<Bookmark>)
    returns (ok: bool, merged: seq<Bookmark>)
    requires IsBookPath(scratch.bookFilePath) && Clean(disk.files, base)
    modifies disk`faults
    ensures disk.faults >= old(disk.faults)
    ensures ok ==> Into(View(disk.files, base), scratch.bookFilePath, Some(list)) == Some(merged)
    ensures !ok ==> disk.faults > old(disk.faults)
                    || Into(View(disk.files, base), scratch.bookFilePath, Some(list)) == None
  {
    var present := disk.Exists(Name(base, Canonical));
    if !present {
      return true, list;
    }
    var secondary, oldFormat;
    ok, secondary, oldFormat := scratch.ReadFromFile(disk, Name(base, Canonical), []);
    if !ok {
      return false, [];
    }
    var changed;
    merged, changed := MergeBookmarks(secondary, list);
  }

  /** Reads the source and whatever the destination holds, and computes the list to write. */
  method GatherPlan(disk: Storage, scratch: Store, m: Move) returns (ok: bool, list: seq<Bookmark>)
    requires Clean(disk.files, m.sourceCurrent) && Clean(disk.files, m.sourceLegacy)
    requires Clean(disk.files, m.destinationCurrent) && Clean(disk.files, m.destinationLegacy)
    modifies disk`faults, scratch`bookFilePath
    ensures disk.faults >= old(disk.faults)
    ensures ok ==> m.Plan(disk.files) == Some(list) && scratch.bookFilePath == m.newPath
    ensures !ok ==> disk.faults > old(disk.faults) || m.Plan(disk.files) == None
  {
    scratch.bookFilePath := m.oldPath;
    var oldFormat;
    ok, list, oldFormat := scratch.ReadStores(disk, m.sourceCurrent, m.sourceLegacy);
    if !ok {
      return;
    }
    scratch.bookFilePath := m.newPath;
    if m.sourceCurrent != m.destinationCurrent {
      ok, list := MergeIntoStore(disk, scratch, m.destinationCurrent, list);
      if !ok {
        return;
      }
    }
    if m.destinationLegacy != m.destinationCurrent {
      ok, list := MergeIntoStore(disk, scratch, m.destinationLegacy, list);
    }
  }

  /** Writes the plan to the destination's current store. */
  method WriteDestination(disk: Storage, scratch: Store, m: Move, ghost f0: Files) returns (ok: bool)
    requires disk.Valid() && m.Unmoved(disk.files, f0) && m.destinationCurrent.PdfStore?
    requires m.HasSource(f0) && m.Plan(f0) == Some(scratch.bookmarks)
    requires AllTerminated(scratch.bookmarks) && |scratch.bookmarks| <= MAX_BOOKMARKS
    requires scratch.bookFilePath == m.newPath && scratch.storeFilePath == m.destinationCurrent
    modifies disk
    ensures disk.Valid() && old(disk.history) <= disk.history && disk.faults >= old(disk.faults)
    ensures m.AllUnderway(disk.history, |old(disk.history)|, f0)
    ensures !ok || m.Moved(disk.files, f0)
    ensures !ok ==> disk.faults > old(disk.faults) || !m.Writes(f0)
  {
    ghost var mid, from := disk.files, |disk.history|;
    assert scratch.Planned(None, NO_INDEX, false) == scratch.bookmarks;
    ghost var commit;
    ok, commit := scratch.WritePdfTransaction(disk, None, NO_INDEX, false);
    ghost var after := View(mid, m.destinationCurrent);
    if |scratch.bookmarks| <= PDF_MAX_PER_BOOK {
      after := Some(scratch.Payload(scratch.bookmarks));
      scratch.PayloadReadsBack(scratch.bookmarks);
    }
    forall f | SameElsewhere(f, mid, m.destinationCurrent)
               && (View(f, m.destinationCurrent) == View(mid, m.destinationCurrent)
                   || View(f, m.destinationCurrent) == after)
      ensures m.Underway(f, f0)
    {
      WrittenUnderway(m, f, mid, f0, after);
    }
    if ok {
      WrittenMoved(m, disk.files, mid, f0);
    }
  }

  /** Points the scratch store at the destination and writes the list. */
  method WriteList(disk: Storage, scratch: Store, m: Move, list: seq<Bookmark>, title: Text, author: Text,
                   ghost f0: Files)
    returns (ok: bool)
    requires disk.Valid() && m.Unmoved(disk.files, f0) && m.destinationCurrent.PdfStore?
    requires m.HasSource(f0) && m.Plan(f0) == Some(list)
    requires AllTerminated(list) && |list| <= MAX_BOOKMARKS && scratch.bookFilePath == m.newPath
    modifies disk, scratch
    ensures disk.Valid() && old(disk.history) <= disk.history && disk.faults >= old(disk.faults)
    ensures m.AllUnderway(disk.history, |old(disk.history)|, f0)
    ensures !ok || m.Moved(disk.files, f0)
    ensures !ok ==> disk.faults > old(disk.faults) || !m.Writes(f0)
  {
    scratch.bookTitle, scratch.bookAuthor := title, author;
    scratch.storeFilePath, scratch.bookmarks := m.destinationCurrent, list;
    ok := WriteDestination(disk, scratch, m, f0);
  }

  lemma WrittenUnderway(m: Move, f: Files, mid: Files, f0: Files, after: Option<bytes>)
    requires SameElsewhere(f, mid, m.destinationCurrent) && m.Unmoved(mid, f0)
    requires View(f, m.destinationCurrent) == View(mid, m.destinationCurrent) || View(f, m.destinationCurrent) == after
    requires after != View(mid, m.destinationCurrent) ==>
               m.Writes(f0) && after.Some? && ViewList(after, m.newPath) == m.Plan(f0)
    ensures m.Underway(f, f0)
  {
    assert forall base :: base != m.destinationCurrent ==> View(f, base) == View(mid, base);
  }

  lemma WrittenMoved(m: Move, f: Files, mid: Files, f0: Files)
    requires SameElsewhere(f, mid, m.destinationCurrent) && m.Unmoved(mid, f0)
    requires m.Writes(f0) && View(f, m.destinationCurrent).Some?
    requires StoreList(f, m.destinationCurrent, m.newPath) == m.Plan(f0)
    ensures m.Moved(f, f0)
  {
    assert forall base :: base != m.destinationCurrent ==> View(f, base) == View(mid, base);
  }

  lemma DeletedStaysMoved(m: Move, p: StorePath, q: StorePath, f: Files, mid: Files, f0: Files)
    requires p != m.destinationCurrent && q != m.destinationCurrent
    requires DeletedPrefix(f, mid, DeletionOrder(p, q)) && m.Moved(mid, f0)
    ensures m.Moved(f, f0)
    ensures forall base :: View(mid, base) == None && base != p && base != q ==> View(f, base) == None
  {
    var k: nat :| k <= |DeletionOrder(p, q)| && f == Deleted(mid, DeletionOrder(p, q), k);
    DeletedViews(mid, p, q, k);
  }

  /** Deletes two stores; harmless as long as neither is the destination's current one. */
  method DropStores(disk: Storage, m: Move, p: StorePath, q: StorePath, ghost f0: Files) returns (ok: bool)
    requires disk.Valid() && m.Moved(disk.files, f0)
    modifies disk
    ensures disk.Valid() && old(disk.history) <= disk.history && disk.faults >= old(disk.faults)
    ensures p != m.destinationCurrent && q != m.destinationCurrent ==>
              m.AllUnderway(disk.history, |old(disk.history)|, f0) && m.Moved(disk.files, f0)
    ensures ok ==> View(disk.files, p) == None && View(disk.files, q) == None
    ensures forall base :: View(old(disk.files), base) == None ==> View(disk.files, base) == None
    ensures !ok ==> disk.faults > old(disk.faults)
  {
    ghost var mid := disk.files;
    ok := DeletePdfBookmarkStorePaths(disk, p, q);
    ghost var k: nat :| k <= |DeletionOrder(p, q)| && disk.files == Deleted(mid, DeletionOrder(p, q), k)
                        && (ok ==> k == |DeletionOrder(p, q)|);
    DeletedViews(mid, p, q, k);
    if p != m.destinationCurrent && q != m.destinationCurrent {
      DeletedStaysMoved(m, p, q, disk.files, mid, f0);
      DeletedUnderway(m, p, q, disk.history, |old(disk.history)|, mid, f0);
    }
    forall base | View(mid, base) == None ensures View(disk.files, base) == None {
      NothingAppears(mid, disk.files, DeletionOrder(p, q), k, base);
    }
  }

  lemma NothingAppears(mid: Files, f: Files, order: seq<Name>, k: nat, base: StorePath)
    requires k <= |order| && f == Deleted(mid, order, k) && View(mid, base) == None
    ensures View(f, base) == None
  {
  }

  lemma DeletedUnderway(m: Move, p: StorePath, q: StorePath, h: seq<Event>, from: nat, mid: Files, f0: Files)
    requires p != m.destinationCurrent && q != m.destinationCurrent && m.Moved(mid, f0)
    requires forall i | from <= i < |h| :: DeletedPrefix(h[i].after, mid, DeletionOrder(p, q))
    ensures m.AllUnderway(h, from, f0)
  {
    forall i | from <= i < |h| ensures m.Underway(h[i].after, f0) {
      DeletedStaysMoved(m, p, q, h[i].after, mid, f0);
    }
  }

  /** After the destination is written: drop its legacy store, then the source. When both paths share
      a current store there is only the source's own legacy store left to drop. */
  method CleanUp(disk: Storage, m: Move, ghost f0: Files) returns (ok: bool)
    requires disk.Valid() && m.Moved(disk.files, f0)
    modifies disk
    ensures disk.Valid() && old(disk.history) <= disk.history && disk.faults >= old(disk.faults)
    ensures !m.Collides() ==>
              m.AllUnderway(disk.history, |old(disk.history)|, f0) && m.Moved(disk.files, f0)
    ensures ok ==>
              && (m.sourceCurrent != m.destinationCurrent ==> View(disk.files, m.sourceCurrent) == None)
              && (m.sourceLegacy != m.sourceCurrent || m.sourceCurrent != m.destinationCurrent ==>
                    View(disk.files, m.sourceLegacy) == None)
              && (m.destinationLegacy != m.destinationCurrent ==> View(disk.files, m.destinationLegacy) == None)
    ensures !ok ==> disk.faults > old(disk.faults)
  {
    if m.destinationLegacy != m.destinationCurrent {
      ok := DropStores(disk, m, m.destinationLegacy, m.destinationLegacy, f0);
      if !ok {
        return;
      }
    }
    ghost var h := disk.history;
    ok := true;
    if m.sourceCurrent != m.destinationCurrent {
      ok := DropStores(disk, m, m.sourceCurrent, m.sourceLegacy, f0);
    } else if m.sourceLegacy != m.sourceCurrent && m.sourceLegacy != m.destinationLegacy {
      ok := DropStores(disk, m, m.sourceLegacy, m.sourceLegacy, f0);
    }
    if !m.Collides() {
      UnderwayJoin(m, h, disk.history, |old(disk.history)|, f0);
    }
  }

  /** Recovers the source side and, if there is anything to move, the destination side. */
  method RecoverBothSides(disk: Storage, scratch: Store, m: Move) returns (ok: bool, hadSource: bool)
    requires disk.Valid()
    requires m.sourceCurrent.PdfStore? && m.sourceLegacy.PdfStore?
    requires m.destinationCurrent.PdfStore? && m.destinationLegacy.PdfStore?
    modifies disk, scratch`storeFilePath
    ensures disk.Valid() && old(disk.history) <= disk.history && disk.faults >= old(disk.faults)
    ensures m.AllUnderway(disk.history, |old(disk.history)|, old(disk.files))
    ensures m.Unmoved(disk.files, old(disk.files))
    ensures ok ==> hadSource == m.HasSource(old(disk.files))
    ensures ok && hadSource ==>
              && Clean(disk.files, m.sourceCurrent) && Clean(disk.files, m.sourceLegacy)
              && Clean(disk.files, m.destinationCurrent) && Clean(disk.files, m.destinationLegacy)
    ensures !ok ==> disk.faults > old(disk.faults)
  {
    ghost var f0, from := disk.files, |disk.history|;
    hadSource := false;
    ok := RecoverSide(disk, scratch, m, m.sourceCurrent, m.sourceLegacy, f0);
    if !ok {
      return;
    }
    hadSource := Name(m.sourceCurrent, Canonical) in disk.files || Name(m.sourceLegacy, Canonical) in disk.files;
    if !hadSource {
      return;
    }
    ghost var h := disk.history;
    ok := RecoverSide(disk, scratch, m, m.destinationCurrent, m.destinationLegacy, f0);
    UnderwayJoin(m, h, disk.history, from, f0);
  }

  /** The plan of the card at the start, which still shows the same stores. */
  method PlanMove(disk: Storage, scratch: Store, m: Move, ghost f0: Files) returns (ok: bool, list: seq<Bookmark>)
    requires m.Unmoved(disk.files, f0)
    requires Clean(disk.files, m.sourceCurrent) && Clean(disk.files, m.sourceLegacy)
    requires Clean(disk.files, m.destinationCurrent) && Clean(disk.files, m.destinationLegacy)
    modifies disk`faults, scratch`bookFilePath
    ensures disk.faults >= old(disk.faults)
    ensures ok ==>
              && m.Plan(f0) == Some(list) && AllTerminated(list) && |list| <= MAX_BOOKMARKS
              && scratch.bookFilePath == m.newPath
    ensures !ok ==> disk.faults > old(disk.faults) || !m.Writes(f0)
    ensures m.Unmoved(disk.files, f0) && disk.history == old(disk.history) && (old(disk.Valid()) ==> disk.Valid())
    ensures m.AllUnderway(disk.history, |disk.history|, f0)
  {
    PlanOfViews(m, disk.files, f0);
    PlanFacts(m, f0);
    ok, list := GatherPlan(disk, scratch, m);
  }

  /** Computes the plan and writes it. */
  method ReadAndWrite(disk: Storage, scratch: Store, m: Move, title: Text, author: Text, ghost f0: Files)
    returns (ok: bool)
    requires disk.Valid() && m.destinationCurrent.PdfStore? && m.Unmoved(disk.files, f0) && m.HasSource(f0)
    requires Clean(disk.files, m.sourceCurrent) && Clean(disk.files, m.sourceLegacy)
    requires Clean(disk.files, m.destinationCurrent) && Clean(disk.files, m.destinationLegacy)
    modifies disk, scratch
    ensures disk.Valid() && old(disk.history) <= disk.history && disk.faults >= old(disk.faults)
    ensures m.AllUnderway(disk.history, |old(disk.history)|, f0)
    ensures !ok || m.Moved(disk.files, f0)
    ensures !ok ==> disk.faults > old(disk.faults) || !m.Writes(f0)
  {
    var list;
    ok, list := PlanMove(disk, scratch, m, f0);
    if !ok {
      return;
    }
    ok := WriteList(disk, scratch, m, list, title, author, f0);
  }

  /** Recovers both sides, computes the plan and writes it. */
  method MoveToDestination(disk: Storage, scratch: Store, m: Move, title: Text, author: Text)
    returns (ok: bool, hadSource: bool)
    requires disk.Valid()
    requires m.sourceCurrent.PdfStore? && m.sourceLegacy.PdfStore?
    requires m.destinationCurrent.PdfStore? && m.destinationLegacy.PdfStore?
    modifies disk, scratch
    ensures disk.Valid() && old(disk.history) <= disk.history && disk.faults >= old(disk.faults)
    ensures m.AllUnderway(disk.history, |old(disk.history)|, old(disk.files))
    ensures ok ==> hadSource == m.HasSource(old(disk.files))
    ensures ok && !hadSource ==> m.Unmoved(disk.files, old(disk.files))
    ensures ok && hadSource ==> m.Moved(disk.files, old(disk.files))
    ensures !ok ==> disk.faults > old(disk.faults)
                    || (m.HasSource(old(disk.files)) && !m.Writes(old(disk.files)))
  {
    ghost var f0, from := disk.files, |disk.history|;
    ok, hadSource := RecoverBothSides(disk, scratch, m);
    if !ok || !hadSource {
      return;
    }
    ghost var h := disk.history;
    ok := ReadAndWrite(disk, scratch, m, title, author, f0);
    UnderwayJoin(m, h, disk.history, from, f0);
  }

  lemma PlanOfViews(m: Move, f: Files, f0: Files)
    requires m.Unmoved(f, f0)
    ensures m.Plan(f) == m.Plan(f0)
  {
  }

  lemma IntoFacts(f: Files, base: StorePath, path: bytes, list: Option<seq<Bookmark>>)
    requires list.Some? ==> AllTerminated(list.value) && |list.value| <= MAX_BOOKMARKS
    ensures var r := Into(View(f, base), path, list);
            r.Some? ==> AllTerminated(r.value) && |r.value| <= MAX_BOOKMARKS
  {
    if Into(View(f, base), path, list).Some? && View(f, base).Some? {
      StoreListFacts(f, base, path);
      var d := StoreList(f, base, path).value;
      MergeBounded(d, list.value);
      MergeKeepsDestination(d, list.value);
    }
  }

  lemma PlanFacts(m: Move, f: Files)
    ensures m.Plan(f).Some? ==> AllTerminated(m.Plan(f).value) && |m.Plan(f).value| <= MAX_BOOKMARKS
  {
    if m.SourceList(f).Some? {
      BookListFacts(f, m.sourceCurrent, m.sourceLegacy, m.oldPath);
    }
    IntoFacts(f, m.destinationCurrent, m.newPath, m.SourceList(f));
    IntoFacts(f, m.destinationLegacy, m.newPath, m.Gathered(f));
  }

  ghost function MoveFor(keys: PathKeys, oldPath: BookPath, newPath: BookPath): Move {
    Move(StoreFor(keys, oldPath, false), StoreFor(keys, oldPath, true),
         StoreFor(keys, newPath, false), StoreFor(keys, newPath, true), oldPath, newPath)
  }

  /** What a finished move leaves: the planned list in the new book and nothing in the old one. When
      both books share a current store, its file is tagged with the new path and refused for the old. */
  ghost predicate Done(m: Move, f: Files, f0: Files) {
    && m.Writes(f0) && m.DestinationList(f) == m.Plan(f0)
    && m.SourceList(f) == (if m.sourceCurrent == m.destinationCurrent then None else Some([]))
    && (m.sourceCurrent != m.destinationCurrent ==> View(f, m.sourceCurrent) == None)
    && (m.sourceLegacy != m.destinationCurrent ==> View(f, m.sourceLegacy) == None)
    && (m.Lossless(f0) ==>
          m.SourceList(f0).Some? && AllPresent(m.SourceList(f0).value, m.DestinationList(f).value))
  }

  ghost predicate AllGone(m: Move, f: Files) {
    && View(f, m.sourceCurrent) == None && View(f, m.sourceLegacy) == None
    && View(f, m.destinationCurrent) == None && View(f, m.destinationLegacy) == None
  }

  /** Moves a book's bookmarks. If the move writes at all, is lossless and the old path's legacy key is
      not the new path's current key, and always if it refuses, every state on the way keeps every
      record findable through one of the two paths. Success moves everything; under that collision it
      deletes the destination that was just written. */
  method MigratePdfForFilePath(disk: Storage, keys: PathKeys, oldPath: BookPath, newPath: BookPath,
                               title: Text, author: Text)
    returns (ok: bool)
    requires disk.Valid()
    modifies disk
    ensures disk.Valid() && old(disk.history) <= disk.history && disk.faults >= old(disk.faults)
    ensures var m, f0 := MoveFor(keys, oldPath, newPath), old(disk.files);
            && ((m.Writes(f0) ==> m.Lossless(f0) && !m.Collides()) ==>
                  forall i | |old(disk.history)| <= i < |disk.history| :: m.Safe(disk.history[i].after, f0))
            && (oldPath != newPath && ok && m.HasSource(f0) ==>
                  if m.Collides() then AllGone(m, disk.files) else Done(m, disk.files, f0))
            && (oldPath == newPath || !m.Writes(f0) ==> m.Unmoved(disk.files, f0))
            && (oldPath == newPath ==> ok && disk.history == old(disk.history))
            && (!ok ==> disk.faults > old(disk.faults) || (m.HasSource(f0) && !m.Writes(f0)))
  {
    if oldPath == newPath {
      return true;
    }
    var scratchAllocated := disk.Attempt();
    if !scratchAllocated {
      return false;
    }
    var ok1, sourceCurrent := PdfBookmarkStoreFilePathForBook(keys, oldPath, false);
    var ok2, sourceLegacy := PdfBookmarkStoreFilePathForBook(keys, oldPath, true);
    var ok3, destinationCurrent := PdfBookmarkStoreFilePathForBook(keys, newPath, false);
    var ok4, destinationLegacy := PdfBookmarkStoreFilePathForBook(keys, newPath, true);
    if !ok1 || !ok2 || !ok3 || !ok4 {
      return false;
    }
    var m := Move(sourceCurrent, sourceLegacy, destinationCurrent, destinationLegacy, oldPath, newPath);
    ok := Carry(disk, m, title, author);
  }

  /** The move between the four stores. */
  method Carry(disk: Storage, m: Move, title: Text, author: Text) returns (ok: bool)
    requires disk.Valid() && m.oldPath != m.newPath
    requires m.sourceCurrent.PdfStore? && m.sourceLegacy.PdfStore?
    requires m.destinationCurrent.PdfStore? && m.destinationLegacy.PdfStore?
    modifies disk
    ensures disk.Valid() && old(disk.history) <= disk.history && disk.faults >= old(disk.faults)
    ensures (m.Writes(old(disk.files)) ==> m.Lossless(old(disk.files)) && !m.Collides()) ==>
              forall i | |old(disk.history)| <= i < |disk.history| ::
                m.Safe(disk.history[i].after, old(disk.files))
    ensures ok && m.HasSource(old(disk.files)) ==>
              if m.Collides() then AllGone(m, disk.files) else Done(m, disk.files, old(disk.files))
    ensures !m.Writes(old(disk.files)) ==> m.Unmoved(disk.files, old(disk.files))
    ensures !ok ==> disk.faults > old(disk.faults)
                    || (m.HasSource(old(disk.files)) && !m.Writes(old(disk.files)))
  {
    ghost var f0, h0 := disk.files, disk.history;
    var scratch := new Store();
    var hadSource;
    ok, hadSource := MoveToDestination(disk, scratch, m, title, author);
    ghost var h := disk.history;
    if ok && hadSource {
      ok := CleanUp(disk, m, f0);
      if !m.Collides() {
        UnderwayJoin(m, h, disk.history, |h0|, f0);
      }
      if ok && !m.Collides() {
        MovedAlone(m, disk.files, f0);
      }
    }
    if m.Writes(f0) ==> m.Lossless(f0) && !m.Collides() {
      AllSafe(m, disk.history, |h0|, f0);
    }
    if !m.Writes(f0) {
      LastUnderway(m, h0, disk.history, f0);
    }
  }

  lemma LastUnderway(m: Move, h0: seq<Event>, h: seq<Event>, f0: Files)
    requires h0 != [] && h0[|h0| - 1].after == f0 && h0 <= h && m.AllUnderway(h, |h0|, f0)
    ensures m.Underway(h[|h| - 1].after, f0)
  {
    if |h| == |h0| { assert h[|h| - 1] == h0[|h| - 1]; }
  }

  lemma AllSafe(m: Move, h: seq<Event>, from: nat, f0: Files)
    requires m.AllUnderway(h, from, f0) && m.oldPath != m.newPath && (m.Writes(f0) ==> m.Lossless(f0))
    ensures forall i | from <= i < |h| :: m.Safe(h[i].after, f0)
  {
    forall i | from <= i < |h| ensures m.Safe(h[i].after, f0) {
      UnderwayIsSafe(m, h[i].after, f0);
    }
  }

  lemma MovedAlone(m: Move, f: Files, f0: Files)
    requires m.Moved(f, f0) && m.oldPath != m.newPath && !m.Collides()
    requires m.destinationLegacy != m.destinationCurrent ==> View(f, m.destinationLegacy) == None
    requires m.sourceCurrent != m.destinationCurrent ==> View(f, m.sourceCurrent) == None
    requires m.sourceLegacy != m.destinationCurrent ==> View(f, m.sourceLegacy) == None
    ensures Done(m, f, f0)
  {
    assert m.DestinationList(f) == m.Plan(f0) by {
      assert Merge(m.Plan(f0).value, []) == m.Plan(f0).value;
    }
    OldPathEmptied(m, f, f0);
    if m.Lossless(f0) {
      PlanKeepsAll(m, f0);
    }
  }

  lemma OldPathEmptied(m: Move, f: Files, f0: Files)
    requires m.Moved(f, f0) && m.oldPath != m.newPath && !m.Collides()
    requires m.sourceCurrent != m.destinationCurrent ==> View(f, m.sourceCurrent) == None
    requires m.sourceLegacy != m.destinationCurrent ==> View(f, m.sourceLegacy) == None
    ensures m.SourceList(f) == if m.sourceCurrent == m.destinationCurrent then None else Some([])
  {
    if m.sourceCurrent == m.destinationCurrent {
      OnePathOnly(View(f, m.destinationCurrent).value, m.newPath, m.oldPath);
    }
  }

  /** No file reads as the store of two books. */
  lemma OnePathOnly(b: bytes, p: bytes, q: bytes)
    requires p != q && DecodeFile(b, p).Loaded?
    ensures DecodeFile(b, q) == Rejected
  {
  }
}

/** The list of bookmarks a card stands for, and what deletion does to it. */
module StoreViews {
  import opened Bytes
  import opened Wrappers
  import opened Bookmarks
  import opened BookmarkCodec
  import opened HalStorage

  /** The records one store would load after recovery; None if its bytes are no store of `path`. */
  function ViewList(v: Option<bytes>, path: bytes): Option<seq<Bookmark>> {
    match v
    case None => Some([])
    case Some(b) =>
      match DecodeFile(b, path)
      case Rejected => None
      case Loaded(list, _) => Some(list)
  }

  function StoreList(files: Files, base: StorePath, path: bytes): Option<seq<Bookmark>> {
    ViewList(View(files, base), path)
  }

  ghost function Combine(c: Option<seq<Bookmark>>, l: Option<seq<Bookmark>>): Option<seq<Bookmark>> {
    if c.None? || l.None? then None else Some(Merge(c.value, l.value))
  }

  /** The records of the legacy store, none when both keys name the same file. */
  function LegacyList(files: Files, current: StorePath, legacy: StorePath, path: bytes): Option<seq<Bookmark>> {
    if legacy == current then Some([]) else StoreList(files, legacy, path)
  }

  /** The book's bookmarks: the canonical store's, then what only the legacy store has. */
  ghost function BookList(files: Files, current: StorePath, legacy: StorePath, path: bytes): Option<seq<Bookmark>> {
    Combine(StoreList(files, current, path), LegacyList(files, current, legacy, path))
  }

  ghost predicate SameOutside(a: Files, b: Files, p: StorePath, q: StorePath) {
    forall n: Name | n.base != p && n.base != q :: (n in a <==> n in b) && (n in a ==> a[n] == b[n])
  }

  /** Same authoritative bytes in both stores, everything else untouched. */
  ghost predicate SameViews(a: Files, b: Files, p: StorePath, q: StorePath) {
    View(a, p) == View(b, p) && View(a, q) == View(b, q) && SameOutside(a, b, p, q)
  }

  lemma StoreListFacts(files: Files, base: StorePath, path: bytes)
    requires StoreList(files, base, path).Some?
    ensures AllTerminated(StoreList(files, base, path).value)
    ensures |StoreList(files, base, path).value| <= MAX_BOOKMARKS
  {
    if View(files, base).Some? { ParseExtends(View(files, base).value, path, []); }
  }

  lemma BookListFacts(files: Files, current: StorePath, legacy: StorePath, path: bytes)
    requires BookList(files, current, legacy, path).Some?
    ensures var list := BookList(files, current, legacy, path).value;
            AllTerminated(list) && |list| <= MAX_BOOKMARKS
  {
    StoreListFacts(files, current, path);
    if legacy != current { StoreListFacts(files, legacy, path); }
    var c, l := StoreList(files, current, path).value, LegacyList(files, current, legacy, path).value;
    MergeBounded(c, l);
    MergeKeepsDestination(c, l);
  }

  /** Every state from `from` on shows the list `m`, or `m` merged once more with the legacy list
      `l` it already contains, and leaves the other stores alone. */
  ghost predicate ListKept(h: seq<Event>, from: nat, current: StorePath, legacy: StorePath, path: bytes,
                           m: Option<seq<Bookmark>>, l: Option<seq<Bookmark>>, frame: Files) {
    forall i | from <= i < |h| ::
      && (BookList(h[i].after, current, legacy, path) == m
          || BookList(h[i].after, current, legacy, path) == Combine(m, l))
      && LegacyKeptOrGone(h[i].after, frame, current, legacy)
      && SameOutside(h[i].after, frame, current, legacy)
  }

  ghost predicate LegacyKeptOrGone(f: Files, frame: Files, current: StorePath, legacy: StorePath) {
    legacy == current || View(f, legacy) == View(frame, legacy) || View(f, legacy) == None
  }

  /** A crash during a load changes nothing, for every book whose list is below the merge cut-off,
      exactly when every legacy record has a valid id. */
  lemma LoadCrashIdempotentIff(files: Files, current: StorePath, legacy: StorePath, path: bytes)
    requires BookList(files, current, legacy, path).Some?
    requires |BookList(files, current, legacy, path).value| < MAX_BOOKMARKS
    ensures var m, l := BookList(files, current, legacy, path), LegacyList(files, current, legacy, path);
            Combine(m, l) == m <==> AllIdsValid(l.value)
  {
    MergeIdempotentIff(StoreList(files, current, path).value, LegacyList(files, current, legacy, path).value);
  }

  /** The failing case on a card: a load puts the one record of a version 2 legacy store, which has no id,
      into the current store; stopped before the legacy store is removed, in a state every such load passes,
      the book shows it twice. */
  lemma StoppedLoadDoubles(current: StorePath, legacy: StorePath, title: Text, author: Text, path: BookPath, b: Bookmark)
    requires current != legacy && Terminated(b) && AsStored(b, LEGACY_VERSION) == b
    ensures var before := map[Name(legacy, Canonical) := EncodeFile(title, author, path, [b], LEGACY_VERSION)];
            var stopped := before[Name(current, Canonical) := EncodeFile(title, author, path, [b], VERSION)];
            && BookList(before, current, legacy, path) == Some([b])
            && BookList(stopped, current, legacy, path) == Some([b, b])
            && ShowsBoth(stopped, current, legacy, path, Some([b]), View(before, legacy))
  {
    var old_ := EncodeFile(title, author, path, [b], LEGACY_VERSION);
    var new_ := EncodeFile(title, author, path, [b], VERSION);
    FileRoundTrip(title, author, path, path, [b], LEGACY_VERSION);
    FileRoundTrip(title, author, path, path, [b], VERSION);
    assert AllAsStored([b], LEGACY_VERSION) == [b];
    CurrentVersionStoresAll([b]);
    TwoStores(current, legacy, path, old_, new_, [b]);
    MergeTwiceDuplicates(b);
  }

  lemma TwoStores(current: StorePath, legacy: StorePath, path: bytes, old_: bytes, new_: bytes, list: seq<Bookmark>)
    requires current != legacy && ViewList(Some(old_), path) == Some(list) && ViewList(Some(new_), path) == Some(list)
    ensures var before := map[Name(legacy, Canonical) := old_];
            && BookList(before, current, legacy, path) == Some(Merge([], list))
            && BookList(before[Name(current, Canonical) := new_], current, legacy, path) == Some(Merge(list, list))
            && ShowsBoth(before[Name(current, Canonical) := new_], current, legacy, path, Some(list),
                         View(before, legacy))
  {
    var before := map[Name(legacy, Canonical) := old_];
    assert View(before, current) == None && View(before, legacy) == Some(old_);
  }

  /** Some state shows the list in the current store while the legacy store is still there. */
  ghost predicate PassedBoth(h: seq<Event>, from: int, current: StorePath, legacy: StorePath, path: bytes,
                             list: Option<seq<Bookmark>>, v: Option<bytes>) {
    exists i | 0 <= i && from <= i < |h| :: ShowsBoth(h[i].after, current, legacy, path, list, v)
  }

  ghost predicate ShowsBoth(f: Files, current: StorePath, legacy: StorePath, path: bytes,
                            list: Option<seq<Bookmark>>, v: Option<bytes>) {
    StoreList(f, current, path) == list && View(f, legacy) == v
  }

  /** Some state shows another list. */
  ghost predicate ShowsOther(h: seq<Event>, from: nat, current: StorePath, legacy: StorePath, path: bytes,
                             m: Option<seq<Bookmark>>) {
    exists i | from <= i < |h| :: BookList(h[i].after, current, legacy, path) != m
  }

  /** A load that goes through passes a state with both stores, and so shows another list on its way
      exactly if some legacy record has no id. */
  lemma LoadShowsOtherListIff(h: seq<Event>, from: nat, f0: Files, current: StorePath, legacy: StorePath, path: bytes)
    requires legacy != current && 0 < from <= |h| && h[from - 1].after == f0
    requires BookList(f0, current, legacy, path).Some? && |BookList(f0, current, legacy, path).value| < MAX_BOOKMARKS
    requires ListKept(h, from, current, legacy, path, BookList(f0, current, legacy, path),
                      StoreList(f0, legacy, path), f0)
    requires PassedBoth(h, from - 1, current, legacy, path, BookList(f0, current, legacy, path), View(f0, legacy))
    ensures StoreList(f0, legacy, path).Some?
    ensures ShowsOther(h, from, current, legacy, path, BookList(f0, current, legacy, path))
       <==> !AllIdsValid(StoreList(f0, legacy, path).value)
  {
    var m, l := BookList(f0, current, legacy, path), StoreList(f0, legacy, path);
    LoadCrashIdempotentIff(f0, current, legacy, path);
    PassedShowsRepeated(h, from, f0, current, legacy, path, m);
    assert Combine(m, l) == m ==> !ShowsOther(h, from, current, legacy, path, m);
  }

  lemma PassedShowsRepeated(h: seq<Event>, from: nat, f0: Files, current: StorePath, legacy: StorePath, path: bytes,
                            m: Option<seq<Bookmark>>)
    requires legacy != current && 0 < from <= |h| && h[from - 1].after == f0
    requires BookList(f0, current, legacy, path) == m && PassedBoth(h, from - 1, current, legacy, path, m, View(f0, legacy))
    ensures Combine(m, StoreList(f0, legacy, path)) != m ==> ShowsOther(h, from, current, legacy, path, m)
  {
    var i :| 0 <= i && from - 1 <= i < |h| && ShowsBoth(h[i].after, current, legacy, path, m, View(f0, legacy));
    BothShowsRepeated(h[i].after, current, legacy, path, m, View(f0, legacy));
    if Combine(m, StoreList(f0, legacy, path)) != m {
      assert i != from - 1;
    }
  }

  lemma BothShowsRepeated(f: Files, current: StorePath, legacy: StorePath, path: bytes,
                          list: Option<seq<Bookmark>>, v: Option<bytes>)
    requires legacy != current && ShowsBoth(f, current, legacy, path, list, v)
    ensures BookList(f, current, legacy, path) == Combine(list, ViewList(v, path))
  {
  }

  lemma ListKeptJoin(h: seq<Event>, h': seq<Event>, from: nat, current: StorePath, legacy: StorePath, path: bytes,
                     m: Option<seq<Bookmark>>, l: Option<seq<Bookmark>>, frame: Files, mid: Files)
    requires from <= |h| && h <= h' && SameOutside(mid, frame, current, legacy)
    requires LegacyKeptOrGone(mid, frame, current, legacy)
    requires ListKept(h, from, current, legacy, path, m, l, frame)
    requires ListKept(h', |h|, current, legacy, path, m, l, mid)
    ensures ListKept(h', from, current, legacy, path, m, l, frame)
  {
    forall i | from <= i < |h'|
      ensures (BookList(h'[i].after, current, legacy, path) == m
               || BookList(h'[i].after, current, legacy, path) == Combine(m, l))
              && LegacyKeptOrGone(h'[i].after, frame, current, legacy)
              && SameOutside(h'[i].after, frame, current, legacy)
    {
      if i < |h| { assert h'[i] == h[i]; }
    }
  }

  // ---------------------------------------------------------------- deletion

  /** Rollback material first, the authoritative canonical file last. */
  function DeletionOrder(current: StorePath, legacy: StorePath): seq<Name> {
    [Name(current, Backup), Name(current, Temporary)]
    + (if legacy != current
       then [Name(legacy, Backup), Name(legacy, Temporary), Name(legacy, Canonical)] else [])
    + [Name(current, Canonical)]
  }

  function Deleted(files: Files, order: seq<Name>, k: nat): Files
    requires k <= |order|
  {
    files - (set n | n in order[..k])
  }

  ghost predicate DeletedPrefix(f: Files, files: Files, order: seq<Name>) {
    exists k: nat :: k <= |order| && f == Deleted(files, order, k)
  }

  lemma DeletedNext(files: Files, order: seq<Name>, k: nat)
    requires k < |order|
    ensures Deleted(files, order, k) - {order[k]} == Deleted(files, order, k + 1)
  {
    assert order[..k + 1] == order[..k] + [order[k]];
  }

  method DeletePdfBookmarkStorePaths(disk: Storage, current: StorePath, legacy: StorePath) returns (ok: bool)
    requires disk.Valid()
    modifies disk
    ensures disk.Valid() && old(disk.history) <= disk.history && disk.faults >= old(disk.faults)
    ensures forall i | |old(disk.history)| <= i < |disk.history| ::
              DeletedPrefix(disk.history[i].after, old(disk.files), DeletionOrder(current, legacy))
    ensures DeletedPrefix(disk.files, old(disk.files), DeletionOrder(current, legacy))
    ensures ok ==>
              disk.files == Deleted(old(disk.files), DeletionOrder(current, legacy), |DeletionOrder(current, legacy)|)
    ensures !ok ==>
              && disk.faults > old(disk.faults)
              && (exists k: nat :: k < |DeletionOrder(current, legacy)|
                                   && disk.files == Deleted(old(disk.files), DeletionOrder(current, legacy), k))
    ensures |disk.history| == |old(disk.history)| <==> disk.files == old(disk.files)
  {
    var order := DeletionOrder(current, legacy);
    ghost var f0 := disk.files;
    var k := 0;
    assert f0 == Deleted(f0, order, 0);
    while k < |order|
      invariant 0 <= k <= |order|
      invariant disk.Valid() && old(disk.history) <= disk.history && disk.faults >= old(disk.faults)
      invariant disk.files == Deleted(f0, order, k)
      invariant if |disk.history| == |old(disk.history)| then disk.files == f0
                else exists n :: n in f0 && n !in disk.files
      invariant forall i | |old(disk.history)| <= i < |disk.history| :: DeletedPrefix(disk.history[i].after, f0, order)
    {
      DeletedNext(f0, order, k);
      var present := disk.Exists(order[k]);
      if present {
        assert order[k] in f0;
        var removed := disk.RemoveFile(order[k]);
        if !removed {
          return false;
        }
      }
      k := k + 1;
    }
    return true;
  }

  /** The canonical file decides, or there is nothing to decide: no canonical store is being held
      by its backup alone. */
  predicate Authoritative(files: Files, base: StorePath) {
    Name(base, Canonical) in files || Name(base, Backup) !in files
  }

  lemma DeletedViews(files: Files, current: StorePath, legacy: StorePath, k: nat)
    requires k <= |DeletionOrder(current, legacy)|
    ensures var f := Deleted(files, DeletionOrder(current, legacy), k);
            && (View(f, current) == View(files, current) || View(f, current) == None)
            && (View(f, legacy) == View(files, legacy) || View(f, legacy) == None)
            && (k == |DeletionOrder(current, legacy)| ==> View(f, current) == None && View(f, legacy) == None)
            && (Authoritative(files, current) && View(f, current) != View(files, current) ==> View(f, legacy) == None)
            && (Authoritative(files, current) && k < |DeletionOrder(current, legacy)| ==>
                  View(f, current) == View(files, current))
            && (k > 0 ==> Name(current, Backup) !in f)
            && SameOutside(f, files, current, legacy)
  {
    var order := DeletionOrder(current, legacy);
    var gone := set n | n in order[..k];
    assert forall n :: n in gone ==> n in order;
    assert order[|order| - 1] == Name(current, Canonical);
    assert Name(current, Canonical) in gone <==> k == |order| by {
      if k < |order| {
        assert forall i | 0 <= i < |order| - 1 :: order[i] != Name(current, Canonical);
      } else {
        assert order[..k] == order;
      }
    }
    if legacy != current {
      assert order == [Name(current, Backup), Name(current, Temporary), Name(legacy, Backup),
                       Name(legacy, Temporary), Name(legacy, Canonical), Name(current, Canonical)];
      if k == 6 { assert order[4] in gone && order[2] in gone; }
    }
    if k > 0 { assert order[0] in gone; }
  }

  ghost predicate KeptOrEmptied(m: Option<seq<Bookmark>>, files: Files, current: StorePath, legacy: StorePath,
                                path: bytes) {
    || m == BookList(files, current, legacy, path)
    || m == StoreList(files, current, path)
    || m == Some([])
  }

  /** With an authoritative canonical store, a deletion stopped anywhere shows the full list, the
      canonical list alone, or nothing. */
  lemma DeletionNeverResurrects(files: Files, current: StorePath, legacy: StorePath, path: bytes, k: nat)
    requires k <= |DeletionOrder(current, legacy)|
    requires Authoritative(files, current) || legacy == current
    ensures KeptOrEmptied(BookList(Deleted(files, DeletionOrder(current, legacy), k), current, legacy, path),
                          files, current, legacy, path)
  {
    DeletedViews(files, current, legacy, k);
    var f := Deleted(files, DeletionOrder(current, legacy), k);
    if View(f, current) == View(files, current) && StoreList(files, current, path).Some? {
      assert Merge(StoreList(files, current, path).value, []) == StoreList(files, current, path).value;
    }
  }

  /** Otherwise the first removal already drops the only canonical copy and leaves the legacy list. */
  lemma FirstRemovalExposesLegacy(files: Files, current: StorePath, legacy: StorePath, path: bytes)
    requires !Authoritative(files, current) && legacy != current
    ensures BookList(Deleted(files, DeletionOrder(current, legacy), 1), current, legacy, path)
         == Combine(Some([]), StoreList(files, legacy, path))
  {
    var order := DeletionOrder(current, legacy);
    assert order[..1] == [Name(current, Backup)];
    var f := Deleted(files, order, 1);
    assert f == files - {Name(current, Backup)};
  }

  /** What decides over a canonical store held by its backup alone: the legacy list adds nothing to show
      that the backup's list has not shown. That is so if it cannot be read or is empty, or if the backup's
      list is a beginning of it that is complete or has an id on every record, or the cut-off hides the rest. */
  ghost predicate AddsNothing(c: Option<seq<Bookmark>>, l: Option<seq<Bookmark>>) {
    l.None? || l.value == [] || (c.Some? && BeginsMergeOf(c.value, l.value))
  }

  /** Deletion keeps its promise at every stopping point exactly when the canonical store is
      authoritative, or there is no separate legacy store, or the legacy list adds nothing. */
  lemma DeletionSafeIff(files: Files, current: StorePath, legacy: StorePath, path: bytes)
    ensures (forall k: nat | k <= |DeletionOrder(current, legacy)| ::
              KeptOrEmptied(BookList(Deleted(files, DeletionOrder(current, legacy), k), current, legacy, path),
                            files, current, legacy, path))
       <==> (|| Authoritative(files, current)
             || legacy == current
             || AddsNothing(StoreList(files, current, path), StoreList(files, legacy, path)))
  {
    var order := DeletionOrder(current, legacy);
    if Authoritative(files, current) || legacy == current {
      forall k: nat | k <= |order|
        ensures KeptOrEmptied(BookList(Deleted(files, order, k), current, legacy, path), files, current, legacy, path)
      {
        DeletionNeverResurrects(files, current, legacy, path, k);
      }
    } else {
      FirstRemovalExposesLegacy(files, current, legacy, path);
      LegacyAloneIff(files, current, legacy, path);
      forall k: nat | k <= |order|
        ensures var m := BookList(Deleted(files, order, k), current, legacy, path);
                || KeptOrEmptied(m, files, current, legacy, path)
                || m == Combine(Some([]), StoreList(files, legacy, path))
      {
        DeletedViews(files, current, legacy, k);
      }
    }
  }

  lemma LegacyAloneIff(files: Files, current: StorePath, legacy: StorePath, path: bytes)
    requires legacy != current
    ensures KeptOrEmptied(Combine(Some([]), StoreList(files, legacy, path)), files, current, legacy, path)
       <==> AddsNothing(StoreList(files, current, path), StoreList(files, legacy, path))
  {
    var c, l := StoreList(files, current, path), StoreList(files, legacy, path);
    if l.Some? {
      if l.value != [] { MergeKeepsDestination([l.value[0]], l.value[1..]); }
      assert Merge([], l.value) == [] <==> l.value == [] by {
        if l.value != [] {
          assert !HasIdentity([], l.value[0]) && [] + [l.value[0]] == [l.value[0]];
        }
      }
      if c.Some? { BeginsMergeIff(c.value, l.value); }
    }
  }

  /** The failing family is real: a crash inside a transaction left only the backup, the legacy file
      still holds an older record with the same id, and a deletion stopped after its first removal
      brings the older record back. */
  lemma DeletionResurrectsStaleRecord(current: StorePath, legacy: StorePath, path: bytes, backup: bytes, old_: bytes,
                                      b: Bookmark, stale: Bookmark)
    requires current != legacy && b != stale && SameIdentity(b, stale)
    requires DecodeFile(backup, path) == Loaded([b], false) && DecodeFile(old_, path) == Loaded([stale], false)
    ensures var files := map[Name(current, Backup) := backup, Name(legacy, Canonical) := old_];
            && BookList(files, current, legacy, path) == Some([b])
            && StoreList(files, current, path) == Some([b])
            && BookList(Deleted(files, DeletionOrder(current, legacy), 1), current, legacy, path) == Some([stale])
  {
    var files := map[Name(current, Backup) := backup, Name(legacy, Canonical) := old_];
    assert View(files, current) == Some(backup) && View(files, legacy) == Some(old_);
    MergeNamesake(b, stale);
    FirstRemovalExposesLegacy(files, current, legacy, path);
  }

  lemma MergeNamesake(b: Bookmark, stale: Bookmark)
    requires SameIdentity(b, stale)
    ensures Merge([b], [stale]) == [b] && Merge([], [stale]) == [stale]
  {
    assert b in [b];
    assert HasIdentity([b], stale) && !HasIdentity([], stale);
    assert [stale][1..] == [] && [] + [stale] == [stale];
  }
}

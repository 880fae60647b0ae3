/** Runs of a PDF bookmark store over crashes and failures: any sequence of calls and starts, each of
    which may be cut short in any state it passes through, and what their callers are told. */
module BookmarkSession {
  import opened Bytes
  import opened Wrappers
  import opened Bookmarks
  import opened BookmarkCodec
  import opened HalStorage
  import opened StoreViews
  import opened BookmarkStore

  datatype Call = Add(entry: Entry) | Remove(itemId: u16) | Clear

  /** What a call does to the list when it takes effect. */
  ghost function Effect(list: seq<Bookmark>, call: Call): seq<Bookmark> {
    match call
    case Add(entry) => list + [entry.AsBookmark()]
    case Remove(itemId) => WithoutId(list, itemId)
    case Clear => []
  }

  /** Whether a store holding `list` accepts the call. */
  ghost predicate Admissible(list: seq<Bookmark>, call: Call) {
    match call
    case Add(entry) => CanAdd(list, entry.itemId)
    case Remove(itemId) => CanRemove(list, itemId)
    case Clear => true
  }

  /** What comes of a step: a call is answered, finds no loaded store, or is cut short with the power;
      a start says whether the store was loaded. */
  datatype Answer = Told(success: bool) | NotLoaded | PowerCut | Started(loaded: bool)

  /** One attempted call: what its caller saw, and whether it took effect. */
  datatype Attempt = Attempt(call: Call, answer: Answer, effective: bool)
  {
    /** Success means it took effect; otherwise only a call cut short or a failed clear can have. */
    predicate Truthful() {
      && (answer == Told(true) ==> effective)
      && (effective ==> answer == Told(true) || answer == PowerCut || (call == Clear && answer == Told(false)))
    }
  }

  ghost function Replay(initial: seq<Bookmark>, log: seq<Attempt>): seq<Bookmark> {
    if log == [] then initial
    else
      var before := Replay(initial, log[..|log| - 1]);
      if log[|log| - 1].effective then Effect(before, log[|log| - 1].call) else before
  }

  /** Every attempt is truthful, and what took effect was admissible when it did. */
  ghost predicate Lawful(initial: seq<Bookmark>, log: seq<Attempt>) {
    log == [] ||
    var front, a := log[..|log| - 1], log[|log| - 1];
    Lawful(initial, front) && a.Truthful() && (a.effective ==> Admissible(Replay(initial, front), a.call))
  }

  /** Every answered call was told success exactly if it was admissible. */
  ghost predicate Exact(initial: seq<Bookmark>, log: seq<Attempt>) {
    log == [] ||
    var front, a := log[..|log| - 1], log[|log| - 1];
    Exact(initial, front) && (a.answer.Told? ==> (a.answer.success <==> Admissible(Replay(initial, front), a.call)))
  }

  lemma Next(initial: seq<Bookmark>, log: seq<Attempt>, a: Attempt)
    ensures var list := Replay(initial, log);
            && Replay(initial, log + [a]) == (if a.effective then Effect(list, a.call) else list)
            && (Lawful(initial, log + [a])
                <==> Lawful(initial, log) && a.Truthful() && (a.effective ==> Admissible(list, a.call)))
            && (Exact(initial, log + [a])
                <==> Exact(initial, log) && (a.answer.Told? ==> (a.answer.success <==> Admissible(list, a.call))))
  {
    assert (log + [a])[..|log|] == log;
  }

  /** Lists stay healthy over every run: distinct valid ids, terminated texts, at most 64. */
  lemma {:induction false} LawfulKeepsHealth(initial: seq<Bookmark>, log: seq<Attempt>)
    requires Healthy(initial) && Lawful(initial, log)
    ensures Healthy(Replay(initial, log))
    decreases |log|
  {
    if log != [] {
      var front, a := log[..|log| - 1], log[|log| - 1];
      LawfulKeepsHealth(initial, front);
      if a.effective {
        EffectKeepsHealth(Replay(initial, front), a.call);
      }
    }
  }

  lemma EffectKeepsHealth(list: seq<Bookmark>, call: Call)
    requires Healthy(list) && Admissible(list, call)
    ensures Healthy(Effect(list, call))
  {
    if call.Add? {
      AdditionKeepsHealth(list, call.entry.AsBookmark());
    } else if call.Remove? {
      var k :| 0 <= k < |list| && list[k].paragraphIndex == call.itemId;
      WithoutIdIs(list, call.itemId, k);
      RemovalKeepsHealth(list, k);
    }
  }

  /** No list outgrows the cap of 64 or what was there at the start. */
  lemma {:induction false} LawfulStaysShort(initial: seq<Bookmark>, log: seq<Attempt>)
    requires Lawful(initial, log)
    ensures |Replay(initial, log)| <= |initial| || |Replay(initial, log)| <= PDF_MAX_PER_BOOK
    decreases |log|
  {
    if log != [] {
      var front, a := log[..|log| - 1], log[|log| - 1];
      LawfulStaysShort(initial, front);
      if a.effective && a.call.Remove? {
        WithoutIdFacts(Replay(initial, front), a.call.itemId);
      }
    }
  }

  /** What the calls alone make of a list when nothing goes wrong: the admissible ones, in order. */
  ghost function Ideal(list: seq<Bookmark>, log: seq<Attempt>): seq<Bookmark> {
    if log == [] then list
    else
      var before := Ideal(list, log[..|log| - 1]);
      if Admissible(before, log[|log| - 1].call) then Effect(before, log[|log| - 1].call) else before
  }

  /** When every call was answered, and exactly, the log replays to the ideal list. */
  lemma {:induction false} ExactIsIdeal(initial: seq<Bookmark>, log: seq<Attempt>)
    requires Lawful(initial, log) && Exact(initial, log) && forall a :: a in log ==> a.answer.Told?
    ensures Replay(initial, log) == Ideal(initial, log)
    decreases |log|
  {
    if log != [] {
      var front := log[..|log| - 1];
      assert log[|log| - 1] in log && forall a :: a in front ==> a in log;
      ExactIsIdeal(initial, front);
    }
  }

  /** `j` is a failed clear after which nothing has taken effect. */
  ghost predicate PendingClear(log: seq<Attempt>, j: nat) {
    && j < |log| && log[j].call == Clear && log[j].answer == Told(false)
    && forall i | j <= i < |log| :: !log[i].effective
  }

  ghost function Settle(log: seq<Attempt>, j: nat): seq<Attempt>
    requires j < |log|
  {
    log[j := log[j].(effective := true)]
  }

  lemma {:induction false} SettledIsEmpty(initial: seq<Bookmark>, log: seq<Attempt>, j: nat)
    requires PendingClear(log, j)
    ensures Replay(initial, Settle(log, j)) == []
    ensures Lawful(initial, log) ==> Lawful(initial, Settle(log, j))
    decreases |log|
  {
    var settled, n := Settle(log, j), |log| - 1;
    if j == n {
      assert settled[..n] == log[..n];
    } else {
      assert settled[..n] == Settle(log[..n], j) && settled[n] == log[n];
      SettledIsEmpty(initial, log[..n], j);
    }
  }

  /** The same calls with the same answers. */
  ghost predicate SameReports(a: seq<Attempt>, b: seq<Attempt>) {
    |a| == |b| && forall i | 0 <= i < |a| :: a[i].call == b[i].call && a[i].answer == b[i].answer
  }

  /** A step of a run, with the power cut somewhere in it or not. */
  datatype Step = Do(call: Call, cut: bool) | Reboot(cut: bool)

  class Session {
    const keys: PathKeys
    const path: BookPath
    const title: Text
    const author: Text
    const disk: Storage
    ghost const initial: seq<Bookmark>
    ghost const faults0: nat
    var store: Store
    var loaded: bool
    ghost var log: seq<Attempt>
    ghost var pending: Option<nat>

    constructor (keys: PathKeys, path: BookPath, title: Text, author: Text, disk: Storage)
      requires disk.Valid()
      requires var current, legacy := StoreFor(keys, path, false), StoreFor(keys, path, true);
               && BookList(disk.files, current, legacy, path).Some?
               && |BookList(disk.files, current, legacy, path).value| < MAX_BOOKMARKS
               && AllIdsValid(LegacyList(disk.files, current, legacy, path).value)
      ensures Valid() && this.disk == disk && log == [] && !loaded && this.keys == keys && this.path == path
      ensures faults0 == disk.faults
      ensures fresh(this) && fresh(store)
      ensures Durable() == Some(initial)
    {
      this.keys, this.path, this.title, this.author, this.disk := keys, path, title, author, disk;
      var nothing := new Store();
      store, loaded := nothing, false;
      log, pending, faults0 := [], None, disk.faults;
      initial := BookList(disk.files, StoreFor(keys, path, false), StoreFor(keys, path, true), path).value;
    }

    ghost function Current(): StorePath { StoreFor(keys, path, false) }

    ghost function Legacy(): StorePath { StoreFor(keys, path, true) }

    /** The list the book would load from a card. */
    ghost function ListOf(files: Files): Option<seq<Bookmark>> { BookList(files, Current(), Legacy(), path) }

    ghost function Durable(): Option<seq<Bookmark>>
      reads disk
    {
      ListOf(disk.files)
    }

    ghost predicate LegacyGone(files: Files) { Legacy() == Current() || View(files, Legacy()) == None }

    ghost predicate LegacyHasIds(files: Files) {
      var l := LegacyList(files, Current(), Legacy(), path);
      l.Some? && AllIdsValid(l.value)
    }

    /** The card replays the attempts that took effect, unless a failed clear has emptied it already;
        a loaded store holds the replayed list in memory. Before the first fault no clear has failed and
        every answer was exact. */
    ghost predicate Valid()
      reads this, disk, store
    {
      && disk.Valid() && LegacyHasIds(disk.files)
      && Lawful(initial, log) && |initial| < MAX_BOOKMARKS
      && disk.faults >= faults0 && (disk.faults == faults0 ==> pending.None? && Exact(initial, log))
      && (match pending
          case None => Durable() == Some(Replay(initial, log))
          case Some(j) => loaded && PendingClear(log, j) && Durable() == Some([]))
      && (loaded ==>
            && LegacyGone(disk.files)
            && store.bookmarks == Replay(initial, log) && AllTerminated(store.bookmarks)
            && store.bookFilePath == path && store.storeFilePath == Current())
    }

    lemma GoneMeansCurrent(files: Files)
      requires LegacyGone(files)
      ensures ListOf(files) == StoreList(files, Current(), path) && LegacyHasIds(files)
    {
      var c := StoreList(files, Current(), path);
      if c.Some? { assert Merge(c.value, []) == c.value; }
    }

    // ------------------------------------------------------------ calls

    /** What a call on the loaded store comes to: whatever state it passes through shows the list from
        before or, if the call is admissible, its effect on the list in memory. */
    ghost predicate Answered(h: seq<Event>, from: int, f: Files, faulted: bool, memory: seq<Bookmark>,
                             before: Option<seq<Bookmark>>, list: seq<Bookmark>, call: Call, success: bool)
    {
      && AllReached(h, from, before, list, call) && LegacyGone(f)
      && (success ==> Admissible(list, call) && ListOf(f) == Some(Effect(list, call)))
      && (!success ==> !Admissible(list, call) || faulted)
      && (!success ==> ListOf(f) == before || (call == Clear && ListOf(f) == Some([])))
      && memory == (if success then Effect(list, call) else list) && AllTerminated(memory)
    }

    method DispatchAdd(entry: Entry) returns (success: bool)
      requires Valid() && loaded
      modifies disk, store`bookmarks, store`dirty
      ensures disk.Valid() && old(disk.history) <= disk.history && disk.faults >= old(disk.faults)
      ensures Answered(disk.history, |old(disk.history)|, disk.files, disk.faults > old(disk.faults), store.bookmarks,
                       old(Durable()), old(store.bookmarks), Add(entry), success)
    {
      ghost var f0, from, list := disk.files, |disk.history|, store.bookmarks;
      GoneMeansCurrent(f0);
      var result := store.AddPdfBookmark(disk, entry);
      success := result == Added;
      SwitchedSession(disk.history, from, f0, disk.files, list, Add(entry));
    }

    method DispatchRemove(itemId: u16) returns (success: bool)
      requires Valid() && loaded
      modifies disk, store`bookmarks, store`dirty
      ensures disk.Valid() && old(disk.history) <= disk.history && disk.faults >= old(disk.faults)
      ensures Answered(disk.history, |old(disk.history)|, disk.files, disk.faults > old(disk.faults), store.bookmarks,
                       old(Durable()), old(store.bookmarks), Call.Remove(itemId), success)
    {
      ghost var f0, from, list := disk.files, |disk.history|, store.bookmarks;
      GoneMeansCurrent(f0);
      LawfulStaysShort(initial, log);
      success := store.RemovePdfBookmark(disk, itemId);
      WithoutIdFacts(list, itemId);
      SwitchedSession(disk.history, from, f0, disk.files, list, Call.Remove(itemId));
    }

    method DispatchClear() returns (success: bool)
      requires Valid() && loaded
      modifies disk, store`bookmarks, store`dirty
      ensures disk.Valid() && old(disk.history) <= disk.history && disk.faults >= old(disk.faults)
      ensures Answered(disk.history, |old(disk.history)|, disk.files, disk.faults > old(disk.faults), store.bookmarks,
                       old(Durable()), old(store.bookmarks), Clear, success)
    {
      ghost var f0, from := disk.files, |disk.history|;
      GoneMeansCurrent(f0);
      success := store.ClearPdfBookmarks(disk, keys);
      ClearedSession(disk.history, from, f0, disk.files);
    }

    /** Runs one call on the loaded store. */
    method Dispatch(call: Call) returns (success: bool)
      requires Valid() && loaded
      modifies disk, store`bookmarks, store`dirty
      ensures disk.Valid() && old(disk.history) <= disk.history && disk.faults >= old(disk.faults)
      ensures Answered(disk.history, |old(disk.history)| - 1, disk.files, disk.faults > old(disk.faults),
                       store.bookmarks, old(Durable()), old(store.bookmarks), call, success)
    {
      ghost var h0, before, list := disk.history, Durable(), store.bookmarks;
      match call {
        case Add(entry) => success := DispatchAdd(entry);
        case Remove(itemId) => success := DispatchRemove(itemId);
        case Clear => success := DispatchClear();
      }
      ReachedFromStart(h0, disk.history, before, list, call);
    }

    lemma ReachedFromStart(h0: seq<Event>, h: seq<Event>, before: Option<seq<Bookmark>>, list: seq<Bookmark>, call: Call)
      requires h0 != [] && h0 <= h && AllReached(h, |h0|, before, list, call)
      requires LegacyGone(h0[|h0| - 1].after) && ListOf(h0[|h0| - 1].after) == before
      ensures AllReached(h, |h0| - 1, before, list, call)
    {
      forall i | |h0| - 1 <= i < |h| ensures LegacyGone(h[i].after) && Reached(ListOf(h[i].after), before, list, call) {
        if i < |h0| { assert h[i] == h0[i]; }
      }
    }

    /** Every state from `from` on shows the list from before or the effect of the admissible call. */
    ghost predicate AllReached(h: seq<Event>, from: int, before: Option<seq<Bookmark>>, list: seq<Bookmark>, call: Call) {
      forall i | 0 <= i && from <= i < |h| ::
        LegacyGone(h[i].after) && Reached(ListOf(h[i].after), before, list, call)
    }

    lemma SwitchedSession(h: seq<Event>, from: nat, f0: Files, f: Files, list: seq<Bookmark>, call: Call)
      requires LegacyGone(f0)
      requires ListSwitch(h, from, Current(), path, StoreList(f0, Current(), path),
                          if Admissible(list, call) then Some(Effect(list, call))
                          else StoreList(f0, Current(), path), f0)
      requires SameElsewhere(f, f0, Current())
      ensures forall i | from <= i < |h| ::
                LegacyGone(h[i].after) && Reached(ListOf(h[i].after), ListOf(f0), list, call)
      ensures LegacyGone(f) && ListOf(f) == StoreList(f, Current(), path)
    {
      GoneMeansCurrent(f0);
      forall g | SameElsewhere(g, f0, Current())
        ensures LegacyGone(g) && ListOf(g) == StoreList(g, Current(), path)
      {
        assert Legacy() != Current() ==> View(g, Legacy()) == View(f0, Legacy());
        GoneMeansCurrent(g);
      }
    }

    lemma ClearedSession(h: seq<Event>, from: nat, f0: Files, f: Files)
      requires LegacyGone(f0)
      requires forall i | from <= i < |h| :: DeletedPrefix(h[i].after, f0, DeletionOrder(Current(), Legacy()))
      requires DeletedPrefix(f, f0, DeletionOrder(Current(), Legacy()))
      ensures forall i | from <= i < |h| ::
                && LegacyGone(h[i].after)
                && (ListOf(h[i].after) == ListOf(f0) || ListOf(h[i].after) == Some([]))
      ensures LegacyGone(f) && (ListOf(f) == ListOf(f0) || ListOf(f) == Some([]))
      ensures View(f, Current()) == None ==> ListOf(f) == Some([])
    {
      GoneMeansCurrent(f0);
      forall g | DeletedPrefix(g, f0, DeletionOrder(Current(), Legacy()))
        ensures LegacyGone(g) && (ListOf(g) == ListOf(f0) || ListOf(g) == Some([]))
        ensures View(g, Current()) == None ==> ListOf(g) == Some([])
      {
        var k: nat :| k <= |DeletionOrder(Current(), Legacy())|
                      && g == Deleted(f0, DeletionOrder(Current(), Legacy()), k);
        DeletedViews(f0, Current(), Legacy(), k);
        GoneMeansCurrent(g);
      }
    }

    /** The log and the card before a call. */
    ghost predicate LogExplains(before: Option<seq<Bookmark>>)
      reads this
    {
      && Lawful(initial, log) && |initial| < MAX_BOOKMARKS
      && (match pending
          case None => before == Some(Replay(initial, log))
          case Some(j) => PendingClear(log, j) && before == Some([]))
    }

    /** The call returned. */
    ghost method Returned(call: Call, success: bool, before: Option<seq<Bookmark>>, faults: nat)
      requires loaded && disk.Valid() && LegacyGone(disk.files) && LogExplains(before)
      requires store.bookFilePath == path && store.storeFilePath == Current() && AllTerminated(store.bookmarks)
      requires faults0 <= faults <= disk.faults && (faults == faults0 ==> pending.None? && Exact(initial, log))
      requires var list := Replay(initial, log);
               && store.bookmarks == (if success then Effect(list, call) else list)
               && (success ==> Admissible(list, call) && Durable() == Some(Effect(list, call)))
               && (!success ==> !Admissible(list, call) || disk.faults > faults)
               && (!success ==> Durable() == before || (call == Clear && Durable() == Some([])))
      modifies this`log, this`pending
      ensures Valid() && log == old(log) + [Attempt(call, Told(success), success)]
      ensures disk.faults == faults && old(pending).None? ==> pending.None?
    {
      Next(initial, log, Attempt(call, Told(success), success));
      GoneMeansCurrent(disk.files);
      if success {
        pending := None;
      } else if pending.None? && Durable() != Some(Replay(initial, log)) {
        pending := Some(|log|);
      }
      log := log + [Attempt(call, Told(success), success)];
    }

    /** The power went inside the call; the card decides whether the call took effect, and whether an
        earlier failed clear did. */
    ghost method Interrupted(call: Call, before: Option<seq<Bookmark>>)
      requires !loaded && disk.Valid() && LegacyGone(disk.files) && LogExplains(before)
      requires disk.faults >= faults0 && (disk.faults == faults0 ==> pending.None? && Exact(initial, log))
      requires Reached(Durable(), before, Replay(initial, log), call)
      modifies this`log, this`pending
      ensures Valid() && pending.None?
      ensures log != [] && SameReports(log[..|log| - 1], old(log))
      ensures log[|log| - 1].call == call && log[|log| - 1].answer == PowerCut
    {
      GoneMeansCurrent(disk.files);
      ghost var effective := Durable() != before;
      if !effective && pending.Some? {
        SettledIsEmpty(initial, log, pending.value);
        log := Settle(log, pending.value);
      }
      Next(initial, log, Attempt(call, PowerCut, effective));
      log, pending := log + [Attempt(call, PowerCut, effective)], None;
    }

    /** The power goes in one of the states since `first`. */
    method CutPower(first: nat, ghost call: Call, ghost before: Option<seq<Bookmark>>)
      requires disk.Valid() && first < |disk.history|
      requires AllReached(disk.history, first, before, Replay(initial, log), call)
      modifies disk, this`loaded
      ensures disk.Valid() && disk.faults == old(disk.faults) && !loaded
      ensures LegacyGone(disk.files) && Reached(Durable(), before, Replay(initial, log), call)
    {
      var k :| first <= k < |disk.history|;
      disk.CrashAt(k);
      loaded := false;
    }

    /** A call that runs to its end. */
    method Complete(call: Call) returns (success: bool)
      requires Valid() && loaded
      modifies this, disk, store
      ensures Valid() && store == old(store) && loaded && disk.faults >= old(disk.faults)
      ensures success ==> Admissible(old(store.bookmarks), call)
      ensures !success ==> !Admissible(old(store.bookmarks), call) || disk.faults > old(disk.faults)
      ensures store.bookmarks == if success then Effect(old(store.bookmarks), call) else old(store.bookmarks)
      ensures disk.faults == old(disk.faults) && old(pending).None? ==> pending.None?
      ensures log != [] && SameReports(log[..|log| - 1], old(log))
      ensures log[|log| - 1].call == call && log[|log| - 1].answer == Told(success)
    {
      ghost var before, faults := Durable(), disk.faults;
      success := Dispatch(call);
      Returned(call, success, before, faults);
      assert log[..|log| - 1] == old(log);
    }

    /** A call in which the power goes. */
    method CutShort(call: Call)
      requires Valid() && loaded
      modifies this, disk, store
      ensures Valid() && store == old(store) && !loaded && disk.faults >= old(disk.faults) && pending.None?
      ensures Reached(Durable(), old(Durable()), old(store.bookmarks), call)
      ensures log != [] && SameReports(log[..|log| - 1], old(log))
      ensures log[|log| - 1].call == call && log[|log| - 1].answer == PowerCut
    {
      ghost var before := Durable();
      var first := |disk.history| - 1;
      var _ := Dispatch(call);
      CutPower(first, call, before);
      Interrupted(call, before);
    }

    /** Attempts a call on a loaded store. Its caller is told success only for an admissible call and
        failure only for an inadmissible one or after a fault, unless the power is cut in any state the
        call reaches. Without a failed clear behind it, the card then holds what the memory holds. */
    method Perform(call: Call, cut: bool) returns (answer: Answer)
      requires Valid() && loaded
      modifies this, disk, store
      ensures Valid() && store == old(store) && loaded == !cut && disk.faults >= old(disk.faults)
      ensures answer == PowerCut <==> cut
      ensures !cut ==> answer.Told?
      ensures answer == Told(true) ==> Admissible(old(store.bookmarks), call)
      ensures answer == Told(false) ==> !Admissible(old(store.bookmarks), call) || disk.faults > old(disk.faults)
      ensures !cut ==>
                store.bookmarks
                == if answer.success then Effect(old(store.bookmarks), call) else old(store.bookmarks)
      ensures !cut && pending.None? ==> Durable() == Some(store.bookmarks)
      ensures !cut && disk.faults == old(disk.faults) && old(pending).None? ==> pending.None?
      ensures cut ==> pending.None? && Reached(Durable(), old(Durable()), old(store.bookmarks), call)
      ensures log != [] && SameReports(log[..|log| - 1], old(log))
      ensures log[|log| - 1].call == call && log[|log| - 1].answer == answer
    {
      if cut {
        CutShort(call);
        return PowerCut;
      }
      var success := Complete(call);
      return Told(success);
    }

    // ------------------------------------------------------------ reboots

    /** Every state from `from` on shows the list, and has ids in its legacy store. */
    ghost predicate AllShow(h: seq<Event>, from: int, list: Option<seq<Bookmark>>) {
      forall i | 0 <= i && from <= i < |h| :: ListOf(h[i].after) == list && LegacyHasIds(h[i].after)
    }

    lemma LoadStates(h: seq<Event>, from: nat, f0: Files)
      requires ListOf(f0).Some? && |ListOf(f0).value| < MAX_BOOKMARKS && LegacyHasIds(f0)
      requires ListKept(h, from, Current(), Legacy(), path, ListOf(f0),
                        LegacyList(f0, Current(), Legacy(), path), f0)
      ensures AllShow(h, from, ListOf(f0))
    {
      LoadCrashIdempotentIff(f0, Current(), Legacy(), path);
    }

    lemma ShownFromStart(h0: seq<Event>, h: seq<Event>, list: Option<seq<Bookmark>>)
      requires h0 != [] && h0 <= h && AllShow(h, |h0|, list)
      requires ListOf(h0[|h0| - 1].after) == list && LegacyHasIds(h0[|h0| - 1].after)
      ensures AllShow(h, |h0| - 1, list)
    {
      forall i | |h0| - 1 <= i < |h| ensures ListOf(h[i].after) == list && LegacyHasIds(h[i].after) {
        if i < |h0| { assert h[i] == h0[i]; }
      }
    }

    lemma LoadOutcome(h0: seq<Event>, h: seq<Event>, f0: Files)
      requires h0 != [] && h0 <= h && h0[|h0| - 1].after == f0
      requires ListOf(f0).Some? && |ListOf(f0).value| < MAX_BOOKMARKS && LegacyHasIds(f0)
      requires ListKept(h, |h0|, Current(), Legacy(), path, ListOf(f0),
                        LegacyList(f0, Current(), Legacy(), path), f0)
      ensures AllShow(h, |h0| - 1, ListOf(f0))
      ensures ListOf(h[|h| - 1].after) == ListOf(f0) && LegacyHasIds(h[|h| - 1].after)
    {
      LoadStates(h, |h0|, f0);
      ShownFromStart(h0, h, ListOf(f0));
    }

    /** A load into an empty memory: no state on the way shows another list. */
    method LoadFresh() returns (candidate: Store, ok: bool)
      requires disk.Valid() && LegacyHasIds(disk.files)
      requires Durable().Some? && |Durable().value| < MAX_BOOKMARKS
      modifies disk
      ensures disk.Valid() && old(disk.history) <= disk.history && fresh(candidate)
      ensures disk.faults >= old(disk.faults)
      ensures !ok ==> disk.faults > old(disk.faults) || |old(Durable()).value| > PDF_MAX_PER_BOOK
      ensures AllShow(disk.history, |old(disk.history)| - 1, old(Durable()))
      ensures Durable() == old(Durable()) && LegacyHasIds(disk.files)
      ensures ok ==>
                && LegacyGone(disk.files) && Some(candidate.bookmarks) == Durable()
                && AllTerminated(candidate.bookmarks)
                && candidate.bookFilePath == path && candidate.storeFilePath == Current()
    {
      ghost var f0, h0 := disk.files, disk.history;
      candidate, ok := LoadCandidate();
      LoadOutcome(h0, disk.history, f0);
    }

    method LoadCandidate() returns (candidate: Store, ok: bool)
      requires disk.Valid()
      modifies disk
      ensures disk.Valid() && old(disk.history) <= disk.history && fresh(candidate)
      ensures disk.faults >= old(disk.faults)
      ensures ListKept(disk.history, |old(disk.history)|, Current(), Legacy(), path, ListOf(old(disk.files)),
                       LegacyList(old(disk.files), Current(), Legacy(), path), old(disk.files))
      ensures !ok ==> disk.faults > old(disk.faults) || ListOf(old(disk.files)) == None
                      || |ListOf(old(disk.files)).value| > PDF_MAX_PER_BOOK
      ensures ok ==>
                && LegacyGone(disk.files) && Some(candidate.bookmarks) == Durable()
                && AllTerminated(candidate.bookmarks)
                && candidate.bookFilePath == path && candidate.storeFilePath == Current()
    {
      candidate := new Store();
      ok := candidate.LoadPdfForBook(disk, keys, path, title, author);
      if ok {
        LoadedFacts(disk.files, candidate.bookmarks);
      }
    }

    lemma LoadedFacts(files: Files, list: seq<Bookmark>)
      requires StoreList(files, Current(), path) == Some(list) && LegacyGone(files)
      ensures ListOf(files) == Some(list) && AllTerminated(list)
    {
      GoneMeansCurrent(files);
      StoreListFacts(files, Current(), path);
    }

    /** Starts over with an empty memory and loads. The load changes nothing, even if it fails or the power
        is cut in any of its states; it fails only after a fault or for a list beyond the cap. */
    method Restart(cut: bool)
      requires Valid() && pending.None?
      modifies this, disk
      ensures Valid() && pending.None? && log == old(log) && fresh(store)
      ensures Durable() == old(Durable()) && disk.faults >= old(disk.faults)
      ensures cut ==> !loaded
      ensures !cut && !loaded ==> disk.faults > old(disk.faults) || |Replay(initial, log)| > PDF_MAX_PER_BOOK
    {
      var first := |disk.history| - 1;
      LawfulStaysShort(initial, log);
      store, loaded := LoadFresh();
      if cut {
        loaded := false;
        var k :| first <= k < |disk.history|;
        disk.CrashAt(k);
      }
    }

    /** The power goes: whatever the last failed clear did to the card is now the fact. */
    method PowerOff()
      requires Valid()
      modifies this
      ensures Valid() && pending.None? && !loaded && store == old(store) && SameReports(log, old(log))
    {
      loaded := false;
      if pending.Some? {
        SettledIsEmpty(initial, log, pending.value);
        log, pending := Settle(log, pending.value), None;
      }
    }

    /** A call on a store that is not loaded does nothing. */
    ghost method Refuse(call: Call)
      requires Valid() && !loaded
      modifies this`log
      ensures Valid() && log == old(log) + [Attempt(call, NotLoaded, false)]
    {
      Next(initial, log, Attempt(call, NotLoaded, false));
      log := log + [Attempt(call, NotLoaded, false)];
    }

    method TakeStep(step: Step) returns (answer: Answer)
      requires Valid()
      modifies this, disk, store
      ensures Valid() && (store == old(store) || fresh(store)) && disk.faults >= old(disk.faults)
      ensures Fits(step, old(loaded), answer) && loaded == LoadedAfter(answer)
      ensures step.Do? ==>
                && log != [] && SameReports(log[..|log| - 1], old(log))
                && log[|log| - 1].call == step.call && log[|log| - 1].answer == answer
      ensures step.Reboot? ==> SameReports(log, old(log))
      ensures Fair() ==> Prompt(step, answer)
    {
      match step
      case Do(call, cut) =>
        if loaded {
          answer := Perform(call, cut);
        } else {
          Refuse(call);
          assert log[..|log| - 1] == old(log);
          answer := NotLoaded;
        }
      case Reboot(cut) =>
        PowerOff();
        Restart(cut);
        answer := Started(loaded);
        LawfulStaysShort(initial, log);
    }

    /** Nothing has gone wrong with the card, and the list at the start was within the cap. */
    ghost predicate Fair()
      reads this, disk
    {
      disk.faults == faults0 && |initial| <= PDF_MAX_PER_BOOK
    }

    method RunLast(steps: seq<Step>, front: seq<Answer>) returns (answers: seq<Answer>)
      requires steps != [] && Valid() && Played(steps[..|steps| - 1], front, log, loaded, Fair())
      modifies this, disk, store
      ensures Valid() && (store == old(store) || fresh(store)) && disk.faults >= old(disk.faults)
      ensures Played(steps, answers, log, loaded, Fair())
    {
      ghost var before, wasLoaded, wasFair := log, loaded, Fair();
      var answer := TakeStep(steps[|steps| - 1]);
      PlayedNext(steps, front, answer, before, wasLoaded, wasFair, log, loaded, Fair());
      answers := front + [answer];
    }

    method RunSteps(steps: seq<Step>) returns (answers: seq<Answer>)
      requires Valid() && log == [] && !loaded
      modifies this, disk, store
      ensures Valid() && (store == old(store) || fresh(store)) && disk.faults >= old(disk.faults)
      ensures Played(steps, answers, log, loaded, Fair())
      decreases |steps|
    {
      answers := [];
      if steps != [] {
        answers := RunSteps(steps[..|steps| - 1]);
        answers := RunLast(steps, answers);
      }
    }

    /** Any run of calls and starts, with power cuts and failures anywhere, and what came of each step.
        Calls on a loaded store are answered unless the power is cut, and the log holds the calls with
        their answers in order. At the end the card holds exactly what the attempts that took effect
        produce, and those were admissible; every call told to have succeeded took effect, and no call
        told to have failed but a clear did. Healthy lists stay healthy. Without faults every answer is
        exact, and every start loads a list within the cap. */
    method Run(steps: seq<Step>) returns (answers: seq<Answer>)
      requires Valid() && log == [] && !loaded
      modifies this, disk, store
      ensures Valid() && !loaded && disk.faults >= old(disk.faults)
      ensures Fit(steps, answers) && Logs(log, Reports(steps, answers))
      ensures Durable() == Some(Replay(initial, log)) && Lawful(initial, log)
      ensures Healthy(initial) ==> Healthy(Replay(initial, log))
      ensures disk.faults == faults0 ==> Exact(initial, log)
      ensures Fair() ==> AllPrompt(steps, answers)
    {
      answers := RunSteps(steps);
      ghost var before := log;
      PowerOff();
      LogsSame(before, log, Reports(steps, answers));
      if Healthy(initial) {
        LawfulKeepsHealth(initial, log);
      }
    }
  }

  /** The list a state shows: the one from before, or the effect of an admissible call. */
  ghost predicate Reached(shown: Option<seq<Bookmark>>, before: Option<seq<Bookmark>>, list: seq<Bookmark>, call: Call) {
    shown == before || (Admissible(list, call) && shown == Some(Effect(list, call)))
  }

  /** Whether the store is loaded after a step. */
  predicate LoadedAfter(answer: Answer) { answer.Told? || answer == Started(true) }

  predicate Running(answers: seq<Answer>) { answers != [] && LoadedAfter(answers[|answers| - 1]) }

  /** A call on a loaded store is answered unless the power is cut in it; a start cut short loads nothing. */
  predicate Fits(step: Step, loaded: bool, answer: Answer) {
    match step
    case Do(_, cut) => if !loaded then answer == NotLoaded else if cut then answer == PowerCut else answer.Told?
    case Reboot(cut) => answer.Started? && (cut ==> !answer.loaded)
  }

  ghost predicate Fit(steps: seq<Step>, answers: seq<Answer>) {
    |answers| == |steps| && forall k | 0 <= k < |steps| :: Fits(steps[k], Running(answers[..k]), answers[k])
  }

  /** A start that is not cut short loads the store. */
  predicate Prompt(step: Step, answer: Answer) { step == Reboot(false) ==> answer == Started(true) }

  ghost predicate AllPrompt(steps: seq<Step>, answers: seq<Answer>) {
    |answers| == |steps| && forall k | 0 <= k < |steps| :: Prompt(steps[k], answers[k])
  }

  /** The calls of a run with their answers. */
  ghost function Reports(steps: seq<Step>, answers: seq<Answer>): seq<(Call, Answer)>
    requires |answers| == |steps|
  {
    if steps == [] then []
    else
      var n := |steps| - 1;
      Reports(steps[..n], answers[..n]) + if steps[n].Do? then [(steps[n].call, answers[n])] else []
  }

  ghost predicate Logs(log: seq<Attempt>, reports: seq<(Call, Answer)>) {
    |log| == |reports| && forall i | 0 <= i < |log| :: (log[i].call, log[i].answer) == reports[i]
  }

  /** A run so far: its answers fit its steps, the log holds them, and every start of a fair run loaded. */
  ghost predicate Played(steps: seq<Step>, answers: seq<Answer>, log: seq<Attempt>, loaded: bool, fair: bool) {
    && Fit(steps, answers) && loaded == Running(answers) && Logs(log, Reports(steps, answers))
    && (fair ==> AllPrompt(steps, answers))
  }

  lemma PlayedNext(steps: seq<Step>, answers: seq<Answer>, answer: Answer, before: seq<Attempt>, wasLoaded: bool,
                   wasFair: bool, log: seq<Attempt>, loaded: bool, fair: bool)
    requires steps != [] && Played(steps[..|steps| - 1], answers, before, wasLoaded, wasFair)
    requires var step := steps[|steps| - 1];
             && Fits(step, wasLoaded, answer) && loaded == LoadedAfter(answer)
             && (fair ==> wasFair && Prompt(step, answer))
             && (step.Reboot? ==> SameReports(log, before))
             && (step.Do? ==>
                   && log != [] && SameReports(log[..|log| - 1], before)
                   && log[|log| - 1].call == step.call && log[|log| - 1].answer == answer)
    ensures Played(steps, answers + [answer], log, loaded, fair)
  {
    var n, all := |steps| - 1, answers + [answer];
    assert all[..n] == answers;
    LogsNext(before, log, steps, all);
    forall k | 0 <= k < |steps| ensures Fits(steps[k], Running(all[..k]), all[k]) {
      if k < n { assert all[..k] == answers[..k] && steps[k] == steps[..n][k]; }
    }
    if fair {
      forall k | 0 <= k < |steps| ensures Prompt(steps[k], all[k]) {
        if k < n { assert steps[k] == steps[..n][k]; }
      }
    }
  }

  lemma LogsSame(before: seq<Attempt>, after: seq<Attempt>, reports: seq<(Call, Answer)>)
    requires Logs(before, reports) && SameReports(after, before)
    ensures Logs(after, reports)
  {
  }

  lemma LogsNext(before: seq<Attempt>, after: seq<Attempt>, steps: seq<Step>, answers: seq<Answer>)
    requires steps != [] && |answers| == |steps|
    requires var n := |steps| - 1;
             && Logs(before, Reports(steps[..n], answers[..n]))
             && (steps[n].Reboot? ==> SameReports(after, before))
             && (steps[n].Do? ==>
                   && after != [] && SameReports(after[..|after| - 1], before)
                   && after[|after| - 1].call == steps[n].call && after[|after| - 1].answer == answers[n])
    ensures Logs(after, Reports(steps, answers))
  {
    var n := |steps| - 1;
    var front := Reports(steps[..n], answers[..n]);
    if steps[n].Do? {
      LogsSame(before, after[..|after| - 1], front);
    } else {
      LogsSame(before, after, front);
    }
  }

  lemma {:induction false} WithoutIdFacts(list: seq<Bookmark>, id: u16)
    ensures |WithoutId(list, id)| <= |list|
    ensures forall b :: b in WithoutId(list, id) ==> b in list
  {
    if list != [] { WithoutIdFacts(list[1..], id); }
  }
}

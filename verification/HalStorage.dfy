/** The storage card under the stores: files by name, every operation free to fail, and the
    sequence of states the card went through. A crash stops the program in any one of them. */
module HalStorage {
  import opened Bytes
  import opened Wrappers
  import Decimal

  // ---------------------------------------------------------------- names

  /** Where a store lives: nowhere yet, in the PDF store file of a 64-bit key, or in the store of
      another kind of book. */
  datatype StorePath = Unset | PdfStore(key: nat) | OtherStore(number: nat)

  /** A transaction uses a canonical file and two artifacts named after it. */
  datatype Part = Canonical | Temporary | Backup

  datatype Name = Name(base: StorePath, part: Part)

  const BOOKMARKS_DIR := "/.crosspoint/bookmarks"
  const PATH_CAPACITY := 64
  const KEY_LIMIT := 0x1_0000_0000_0000_0000

  function PdfStorePath(key: nat): string {
    BOOKMARKS_DIR + "/pdf_" + Decimal.Numeral(key) + ".bin"
  }

  function Suffix(p: Part): string {
    match p
    case Canonical => ""
    case Temporary => ".tmp"
    case Backup => ".bak"
  }

  /** The two path keys: the current one, and the one older firmware used. */
  datatype PathKeys = PathKeys(crc32: bytes -> u32, stdHash: bytes -> u64)

  function StoreFor(keys: PathKeys, filePath: bytes, legacy: bool): StorePath {
    PdfStore(if legacy then keys.stdHash(filePath) else keys.crc32(filePath))
  }

  /** Formatting the path never fails. */
  method PdfBookmarkStoreFilePathForBook(keys: PathKeys, filePath: bytes, legacy: bool)
    returns (ok: bool, output: StorePath)
    ensures ok && output == StoreFor(keys, filePath, legacy)
  {
    var key: u64 := if legacy then keys.stdHash(filePath) else keys.crc32(filePath);
    PdfStorePathFits(key);
    if |PdfStorePath(key)| >= PATH_CAPACITY {
      return false, Unset;
    }
    return true, PdfStore(key);
  }

  /** The path string of a PDF store's file. */
  function Render(key: nat, part: Part): string { PdfStorePath(key) + Suffix(part) }

  /** Keys and parts name files without loss: different ones never render to the same path. */
  lemma RenderInjective(j: nat, p: Part, k: nat, q: Part)
    ensures Render(j, p) == Render(k, q) ==> j == k && p == q
  {
    var a, b := Render(j, p), Render(k, q);
    if a == b {
      LastFour(j, p);
      LastFour(k, q);
      var front := BOOKMARKS_DIR + "/pdf_";
      var x, y := Decimal.Numeral(j), Decimal.Numeral(k);
      assert a == front + x + (".bin" + Suffix(p)) && b == front + y + (".bin" + Suffix(q));
      assert a[|front|..|a| - |".bin" + Suffix(p)|] == x;
      assert b[|front|..|b| - |".bin" + Suffix(q)|] == y;
      Decimal.NumeralReads(j);
      Decimal.NumeralReads(k);
    }
  }

  lemma LastFour(key: nat, part: Part)
    ensures var r := Render(key, part);
            r[|r| - 4..] == (match part case Canonical => ".bin" case Temporary => ".tmp" case Backup => ".bak")
  {
  }

  /** The 64-byte path buffer never overflows, whatever the 64-bit key. */
  lemma PdfStorePathFits(key: nat)
    requires key < KEY_LIMIT
    ensures |PdfStorePath(key)| < PATH_CAPACITY
  {
    assert Decimal.Pow10(20) == 100_000_000_000_000_000_000 by {
      assert Decimal.Pow10(5) == 100_000;
      assert Decimal.Pow10(10) == 10_000_000_000;
      assert Decimal.Pow10(15) == 1_000_000_000_000_000;
    }
    Decimal.NumeralLength(key, 20);
  }

  // ---------------------------------------------------------------- the card

  type Files = map<Name, bytes>

  datatype Step = Mount | Remove(name: Name) | Rename(from: Name, to: Name) | Write(name: Name)

  datatype Event = Event(step: Step, after: Files)

  /** Every operation may fail with no effect; `faults` counts what went wrong outside the program. */
  class Storage {
    var files: Files
    var history: seq<Event>
    ghost var faults: nat

    ghost predicate Valid()
      reads this
    {
      history != [] && history[|history| - 1].after == files
    }

    constructor (contents: Files)
      ensures Valid() && files == contents && history == [Event(Mount, contents)] && faults == 0
    {
      files := contents;
      history := [Event(Mount, contents)];
      faults := 0;
    }

    /** The program stopped in state `k`; the card is mounted again as it was then. */
    method CrashAt(k: nat)
      requires Valid() && k < |history|
      modifies this
      ensures Valid() && files == old(history)[k].after && faults == old(faults)
      ensures history == old(history) + [Event(Mount, files)]
    {
      files := history[k].after;
      history := history + [Event(Mount, files)];
    }

    method Exists(n: Name) returns (b: bool)
      ensures b <==> n in files
    {
      b := n in files;
    }

    /** Whether the next operation goes through. */
    method Attempt() returns (ok: bool)
      modifies this`faults
      ensures faults == old(faults) + (if ok then 0 else 1)
    {
      ok := *;
      if !ok {
        faults := faults + 1;
      }
    }

    method RemoveFile(n: Name) returns (ok: bool)
      requires Valid()
      modifies this
      ensures Valid()
      ensures OnlyTouched(old(history), old(files), history, files, n)
      ensures ok ==> n in old(files) && files == old(files) - {n} && faults == old(faults)
                     && history == old(history) + [Event(Remove(n), files)]
      ensures !ok ==> files == old(files) && history == old(history) && faults >= old(faults)
                      && (n in files ==> faults > old(faults))
    {
      if n !in files {
        return false;
      }
      ok := Attempt();
      if ok {
        files := files - {n};
        history := history + [Event(Remove(n), files)];
      }
    }

    /** The card refuses to rename onto an existing file; no caller ever asks it to. */
    method RenameFile(from: Name, to: Name) returns (ok: bool)
      requires Valid() && from in files && to !in files
      modifies this
      ensures Valid()
      ensures ok ==> files == old(files)[to := old(files)[from]] - {from} && faults == old(faults)
                     && history == old(history) + [Event(Rename(from, to), files)]
      ensures !ok ==> files == old(files) && history == old(history) && faults > old(faults)
    {
      ok := Attempt();
      if ok {
        files := files[to := files[from]] - {from};
        history := history + [Event(Rename(from, to), files)];
      }
    }

    /** Opening may fail without creating the file. */
    method OpenFileForWrite(n: Name) returns (ok: bool)
      requires Valid()
      modifies this
      ensures Valid()
      ensures OnlyTouched(old(history), old(files), history, files, n)
      ensures ok ==> n in files && faults >= old(faults) && (faults == old(faults) ==> files[n] == [])
      ensures !ok ==> files == old(files) && history == old(history) && faults > old(faults)
    {
      ok := Attempt();
      if ok {
        Settle(n, []);
      }
    }

    /** Writing, flushing or syncing: whatever is reported, and whether the program lives on or not,
        the card may hold any bytes under the name until it is read back. */
    method WriteFile(n: Name, chunk: bytes) returns (ok: bool)
      requires Valid() && n in files
      modifies this
      ensures Valid() && n in files && faults >= old(faults)
      ensures OnlyTouched(old(history), old(files), history, files, n)
      ensures faults == old(faults) ==> ok && files[n] == old(files)[n] + chunk
    {
      ok := Attempt();
      Settle(n, files[n] + chunk);
    }

    method Settle(n: Name, intended: bytes)
      requires Valid()
      modifies this
      ensures Valid() && n in files && faults >= old(faults)
      ensures OnlyTouched(old(history), old(files), history, files, n)
      ensures faults == old(faults) ==> files[n] == intended
    {
      var content: bytes := *;
      if content != intended {
        faults := faults + 1;
      }
      files := files[n := content];
      history := history + [Event(Write(n), files)];
    }

    method OpenFileForRead(n: Name) returns (ok: bool, file: FsFile)
      modifies this`faults
      ensures ok ==> n in files && file.data == files[n] && file.position == 0 && faults == old(faults)
      ensures fresh(file) && faults >= old(faults)
      ensures !ok ==> n !in files || faults > old(faults)
    {
      ok := false;
      if n in files {
        ok := Attempt();
      }
      file := new FsFile(if n in files then files[n] else []);
    }
  }

  /** An open file being read: reads are honest and advance the cursor. */
  class FsFile {
    const data: bytes
    var position: nat

    constructor (contents: bytes)
      ensures data == contents && position == 0
    {
      data := contents;
      position := 0;
    }

    ghost predicate Valid()
      reads this
    {
      position <= |data|
    }

    method Available() returns (n: nat)
      requires Valid()
      ensures n == |data| - position
    {
      n := |data| - position;
    }

    /** At most `n` bytes: fewer only at the end of the file. */
    method Read(n: nat) returns (chunk: bytes)
      requires Valid()
      modifies this
      ensures Valid() && position == (if n <= |data| - old(position) then old(position) + n else |data|)
      ensures chunk == data[old(position)..position]
    {
      var end := if n <= |data| - position then position + n else |data|;
      chunk := data[position..end];
      position := end;
    }
  }

  /** `a` and `b` agree on every name but `n`. */
  ghost predicate SameExcept(a: Files, b: Files, n: Name) {
    forall m: Name | m != n :: (m in a <==> m in b) && (m in a ==> a[m] == b[m])
  }

  /** Between two points of the history nothing changed but what is under `n`. */
  ghost predicate OnlyTouched(h0: seq<Event>, f0: Files, h: seq<Event>, f: Files, n: Name) {
    h0 <= h && SameExcept(f, f0, n) && forall i | |h0| <= i < |h| :: SameExcept(h[i].after, f0, n)
  }

  lemma TouchedJoin(h0: seq<Event>, f0: Files, h1: seq<Event>, f1: Files, h2: seq<Event>, f2: Files, n: Name)
    requires OnlyTouched(h0, f0, h1, f1, n) && OnlyTouched(h1, f1, h2, f2, n)
    ensures OnlyTouched(h0, f0, h2, f2, n)
  {
    forall i | |h0| <= i < |h2| ensures SameExcept(h2[i].after, f0, n) {
      if i < |h1| {
        assert h2[i] == h1[i];
      } else {
        assert SameExcept(h2[i].after, f1, n);
      }
    }
  }

  lemma TouchedShows(h0: seq<Event>, f0: Files, h: seq<Event>, f: Files, base: StorePath)
    requires OnlyTouched(h0, f0, h, f, Name(base, Temporary))
    ensures Showed(h, |h0|, base, View(f0, base), f0)
    ensures View(f, base) == View(f0, base) && SameElsewhere(f, f0, base)
  {
  }

  // ---------------------------------------------------------------- what recovery will see

  /** The authoritative bytes of a store, as recovery will decide them: the canonical file if it is
      there, else the backup, else nothing. The temporary file never counts. */
  function View(files: Files, base: StorePath): Option<bytes> {
    if Name(base, Canonical) in files then Some(files[Name(base, Canonical)])
    else if Name(base, Backup) in files then Some(files[Name(base, Backup)])
    else None
  }

  /** The card after a recovery in which nothing failed. */
  function Recovered(files: Files, base: StorePath): Files {
    var main, temp, back := Name(base, Canonical), Name(base, Temporary), Name(base, Backup);
    var restored := if main !in files && back in files then files[main := files[back]] else files;
    restored - {temp, back}
  }

  predicate Clean(files: Files, base: StorePath) {
    Name(base, Temporary) !in files && Name(base, Backup) !in files
  }

  ghost predicate SameElsewhere(a: Files, b: Files, base: StorePath) {
    forall n: Name | n.base != base :: (n in a <==> n in b) && (n in a ==> a[n] == b[n])
  }

  lemma RecoveredFacts(files: Files, base: StorePath)
    ensures View(Recovered(files, base), base) == View(files, base)
    ensures Clean(Recovered(files, base), base)
    ensures SameElsewhere(Recovered(files, base), files, base)
    ensures Recovered(Recovered(files, base), base) == Recovered(files, base)
  {
  }

  /** From event `from` on, the store shows `v` and the other stores are as in `frame`. */
  ghost predicate Showed(h: seq<Event>, from: nat, base: StorePath, v: Option<bytes>, frame: Files) {
    forall i | from <= i < |h| :: View(h[i].after, base) == v && SameElsewhere(h[i].after, frame, base)
  }

  /** From event `from` on, the store shows `before` up to event `commit` and `after` from then on,
      and event `commit`, if there is one, is the promoting rename. */
  ghost predicate SwitchedOnce(h: seq<Event>, from: nat, base: StorePath, before: Option<bytes>, after: Option<bytes>,
                               commit: nat, frame: Files) {
    && from <= commit <= |h|
    && (forall i | from <= i < commit :: View(h[i].after, base) == before)
    && (forall i | commit <= i < |h| :: View(h[i].after, base) == after)
    && (forall i | from <= i < |h| :: SameElsewhere(h[i].after, frame, base))
    && (commit < |h| ==> h[commit].step == Rename(Name(base, Temporary), Name(base, Canonical)))
  }

  lemma ShowedJoin(h: seq<Event>, h': seq<Event>, from: nat, base: StorePath, v: Option<bytes>, frame: Files, mid: Files)
    requires from <= |h| && h <= h'
    requires Showed(h, from, base, v, frame)
    requires SameElsewhere(mid, frame, base) && Showed(h', |h|, base, v, mid)
    ensures Showed(h', from, base, v, frame)
  {
    forall i | from <= i < |h'| ensures View(h'[i].after, base) == v && SameElsewhere(h'[i].after, frame, base) {
      if i < |h| { assert h'[i] == h[i]; }
    }
  }

  lemma Uncommitted(h: seq<Event>, from: nat, base: StorePath, before: Option<bytes>, after: Option<bytes>, frame: Files)
    requires from <= |h| && Showed(h, from, base, before, frame)
    ensures SwitchedOnce(h, from, base, before, after, |h|, frame)
  {
  }

  lemma Committed(h: seq<Event>, h': seq<Event>, from: nat, base: StorePath, before: Option<bytes>,
                  after: Option<bytes>, frame: Files, mid: Files)
    requires from <= |h| < |h'| && h <= h'
    requires SameElsewhere(mid, frame, base)
    requires Showed(h, from, base, before, frame) && Showed(h', |h|, base, after, mid)
    requires h'[|h|].step == Rename(Name(base, Temporary), Name(base, Canonical))
    ensures SwitchedOnce(h', from, base, before, after, |h|, frame)
  {
    forall i | from <= i < |h'| ensures SameElsewhere(h'[i].after, frame, base) {
      if i < |h| { assert h'[i] == h[i]; }
    }
  }

  lemma ShowedThenSwitched(h: seq<Event>, h': seq<Event>, from: nat, base: StorePath, before: Option<bytes>,
                           after: Option<bytes>, commit: nat, frame: Files, mid: Files)
    requires from <= |h| && h <= h'
    requires Showed(h, from, base, before, frame)
    requires SameElsewhere(mid, frame, base) && SwitchedOnce(h', |h|, base, before, after, commit, mid)
    ensures SwitchedOnce(h', from, base, before, after, commit, frame)
  {
    forall i | from <= i < |h'| ensures SameElsewhere(h'[i].after, frame, base) {
      if i < |h| { assert h'[i] == h[i]; }
    }
    forall i | from <= i < commit ensures View(h'[i].after, base) == before {
      if i < |h| { assert h'[i] == h[i]; }
    }
  }
}

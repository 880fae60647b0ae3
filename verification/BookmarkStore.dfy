/** The PDF bookmark store: the record list in memory, the three-file transaction that makes every
    change durable, recovery, loading with legacy merge, and the move to another path. */
module BookmarkStore {
  import opened Bytes
  import opened Wrappers
  import opened Bookmarks
  import opened BookmarkCodec
  import opened HalStorage
  import opened TransactionParts
  import opened StoreViews

  // ---------------------------------------------------------------- the store

  class Store {
    var bookmarks: seq<Bookmark>
    var bookFilePath: Text
    var bookTitle: Text
    var bookAuthor: Text
    var storeFilePath: StorePath
    var dirty: bool

    constructor ()
      ensures bookmarks == [] && bookFilePath == [] && bookTitle == [] && bookAuthor == []
      ensures storeFilePath == Unset && !dirty
    {
      bookmarks, bookFilePath, bookTitle, bookAuthor, storeFilePath, dirty := [], [], [], [], Unset, false;
    }

    /** The bytes of the current-version file that holds `list`. */
    ghost function Payload(list: seq<Bookmark>): bytes
      requires |list| <= MAX_BOOKMARKS
      reads this
    {
      EncodeFile(bookTitle, bookAuthor, bookFilePath, list, VERSION)
    }

    ghost function Planned(appended: Option<Bookmark>, removeIndex: nat, clear: bool): seq<Bookmark>
      reads this
    {
      Logical(bookmarks, appended, removeIndex, clear)
    }

    /** Compares the records that follow the header with the planned list. */
    method VerifyRecords(file: FsFile, appended: Option<Bookmark>, removeIndex: nat, clear: bool, logicalCount: nat)
      returns (matches: bool)
      requires logicalCount == |Planned(appended, removeIndex, clear)|
      requires file.Valid()
      modifies file
      ensures file.Valid()
      ensures var records := EncodeRecords(Planned(appended, removeIndex, clear), VERSION);
              && (matches <==> At(file.data, old(file.position), records))
              && (matches ==> file.position == old(file.position) + |records|)
    {
      ghost var list := Planned(appended, removeIndex, clear);
      ghost var whole := RestMatches(file.data, file.position, list, 0);
      ghost var end := RestEnd(file.position, list, 0);
      var index := 0;
      WholeRests(file.data, file.position, list);
      while index < logicalCount
        invariant 0 <= index <= logicalCount == |list|
        invariant file.Valid()
        invariant whole == RestMatches(file.data, file.position, list, index)
        invariant end == RestEnd(file.position, list, index)
      {
        var bookmark := PdfBookmarkAt(bookmarks, appended, removeIndex, index);
        var same := VerifyRecord(file, bookmark.value, list, index);
        if !same {
          return false;
        }
        index := index + 1;
      }
      NothingRests(file.data, file.position, list);
      return true;
    }

    method VerifyRecord(file: FsFile, bookmark: Bookmark, ghost list: seq<Bookmark>, ghost index: nat) returns (same: bool)
      requires file.Valid() && index < |list| && bookmark == list[index]
      modifies file
      ensures file.Valid()
      ensures RestMatches(file.data, old(file.position), list, index)
           == (same && RestMatches(file.data, file.position, list, index + 1))
      ensures same ==> RestEnd(old(file.position), list, index) == RestEnd(file.position, list, index + 1)
    {
      NextRecord(file.data, file.position, list, index);
      same := ReadExpectedPieces(file, RecordPieces(bookmark));
    }

    /** Reads the temporary file back and compares it with what should be there, to the last byte. */
    method VerifyPdfTransaction(disk: Storage, path: Name, appended: Option<Bookmark>, removeIndex: nat, clear: bool)
      returns (ok: bool)
      requires |Planned(appended, removeIndex, clear)| <= PDF_MAX_PER_BOOK
      modifies disk`faults
      ensures disk.faults >= old(disk.faults)
      ensures ok ==> path in disk.files && disk.files[path] == Payload(Planned(appended, removeIndex, clear))
      ensures !ok ==>
                || disk.faults > old(disk.faults)
                || path !in disk.files
                || disk.files[path] != Payload(Planned(appended, removeIndex, clear))
    {
      var isOpen, file := disk.OpenFileForRead(path);
      if !isOpen {
        return false;
      }
      var matches := VerifyContents(file, appended, removeIndex, clear);
      var closed := disk.Attempt();
      return matches && closed;
    }

    /** Compares a freshly opened file with what should be there. */
    method VerifyContents(file: FsFile, appended: Option<Bookmark>, removeIndex: nat, clear: bool) returns (matches: bool)
      requires |Planned(appended, removeIndex, clear)| <= PDF_MAX_PER_BOOK
      requires file.Valid() && file.position == 0
      modifies file
      ensures matches <==> file.data == Payload(Planned(appended, removeIndex, clear))
    {
      ghost var list := Planned(appended, removeIndex, clear);
      var logicalCount := PdfBookmarkCount(bookmarks, appended, removeIndex, clear);
      ghost var header := EncodeHeader(bookTitle, bookAuthor, bookFilePath, logicalCount, VERSION);
      TwoParts(file.data, header, EncodeRecords(list, VERSION));
      matches := VerifyHeader(file, logicalCount);
      if matches {
        matches := VerifyRecords(file, appended, removeIndex, clear, logicalCount);
      }
      var available := file.Available();
      matches := matches && available == 0;
    }

    method VerifyHeader(file: FsFile, logicalCount: nat) returns (matches: bool)
      requires file.Valid() && file.position == 0 && logicalCount <= MAX_BOOKMARKS
      modifies file
      ensures file.Valid()
      ensures var header := EncodeHeader(bookTitle, bookAuthor, bookFilePath, logicalCount, VERSION);
              && (matches <==> At(file.data, 0, header))
              && (matches ==> file.position == |header|)
    {
      HeaderPiecesFlatten(bookTitle, bookAuthor, bookFilePath, logicalCount);
      matches := ReadExpectedPieces(file, HeaderPieces(bookTitle, bookAuthor, bookFilePath, logicalCount));
    }

    method WriteRecords(disk: Storage, name: Name, appended: Option<Bookmark>, removeIndex: nat, clear: bool,
                        logicalCount: nat)
      returns (wrote: bool)
      requires disk.Valid() && name in disk.files
      requires logicalCount == |Planned(appended, removeIndex, clear)|
      modifies disk
      ensures disk.Valid() && name in disk.files && disk.faults >= old(disk.faults)
      ensures OnlyTouched(old(disk.history), old(disk.files), disk.history, disk.files, name)
      ensures disk.faults == old(disk.faults) ==>
                && wrote
                && disk.files[name]
                == old(disk.files[name]) + EncodeRecords(Planned(appended, removeIndex, clear), VERSION)
    {
      ghost var list := Planned(appended, removeIndex, clear);
      ghost var h0, f0 := disk.history, disk.files;
      wrote := true;
      var index := 0;
      assert list[0..] == list;
      while wrote && index < logicalCount
        invariant 0 <= index <= logicalCount
        invariant disk.Valid() && name in disk.files && disk.faults >= old(disk.faults)
        invariant OnlyTouched(h0, f0, disk.history, disk.files, name)
        invariant disk.faults == old(disk.faults) ==>
                    && wrote
                    && disk.files[name] + EncodeRecords(list[index..], VERSION)
                    == f0[name] + EncodeRecords(list, VERSION)
      {
        assert list[index..][1..] == list[index + 1..];
        ghost var h, f := disk.history, disk.files;
        var bookmark := PdfBookmarkAt(bookmarks, appended, removeIndex, index);
        RecordPiecesFlatten(list[index]);
        wrote := WritePieces(disk, name, RecordPieces(bookmark.value));
        TouchedJoin(h0, f0, h, f, disk.history, disk.files, name);
        Reassociate(f[name], EncodeRecord(list[index], VERSION), EncodeRecords(list[index + 1..], VERSION));
        index := index + 1;
      }
      Reassociate(disk.files[name], [], []);
    }

    method WriteHeader(disk: Storage, name: Name, logicalCount: nat) returns (wrote: bool)
      requires disk.Valid() && name in disk.files
      requires logicalCount <= MAX_BOOKMARKS
      modifies disk
      ensures disk.Valid() && name in disk.files && disk.faults >= old(disk.faults)
      ensures OnlyTouched(old(disk.history), old(disk.files), disk.history, disk.files, name)
      ensures disk.faults == old(disk.faults) && old(disk.files[name]) == [] ==>
                && wrote
                && disk.files[name] == EncodeHeader(bookTitle, bookAuthor, bookFilePath, logicalCount, VERSION)
    {
      HeaderPiecesFlatten(bookTitle, bookAuthor, bookFilePath, logicalCount);
      wrote := WritePieces(disk, name, HeaderPieces(bookTitle, bookAuthor, bookFilePath, logicalCount));
    }

    /** Writes header and records under the temporary name. */
    method WritePayload(disk: Storage, name: Name, appended: Option<Bookmark>, removeIndex: nat, clear: bool)
      returns (wrote: bool)
      requires disk.Valid() && name in disk.files
      requires |Planned(appended, removeIndex, clear)| <= PDF_MAX_PER_BOOK
      modifies disk
      ensures disk.Valid() && name in disk.files && disk.faults >= old(disk.faults)
      ensures OnlyTouched(old(disk.history), old(disk.files), disk.history, disk.files, name)
      ensures disk.faults == old(disk.faults) && old(disk.files[name]) == [] ==>
                wrote && disk.files[name] == Payload(Planned(appended, removeIndex, clear))
    {
      ghost var h0, f0 := disk.history, disk.files;
      var logicalCount := PdfBookmarkCount(bookmarks, appended, removeIndex, clear);
      wrote := WriteHeader(disk, name, logicalCount);
      ghost var h, f := disk.history, disk.files;
      if wrote {
        wrote := WriteRecords(disk, name, appended, removeIndex, clear, logicalCount);
        TouchedJoin(h0, f0, h, f, disk.history, disk.files, name);
      }
    }

    /** First part of a transaction: restore a backup left without its canonical file, drop debris. */
    method PrepareTransaction(disk: Storage) returns (ok: bool)
      requires disk.Valid()
      modifies disk
      ensures disk.Valid() && old(disk.history) <= disk.history && disk.faults >= old(disk.faults)
      ensures Showed(disk.history, |old(disk.history)|, storeFilePath,
                     View(old(disk.files), storeFilePath), old(disk.files))
      ensures View(disk.files, storeFilePath) == View(old(disk.files), storeFilePath)
      ensures SameElsewhere(disk.files, old(disk.files), storeFilePath)
      ensures ok ==> Clean(disk.files, storeFilePath)
      ensures !ok ==> disk.faults > old(disk.faults)
    {
      var canonical, temporary, backup :=
        Name(storeFilePath, Canonical), Name(storeFilePath, Temporary), Name(storeFilePath, Backup);
      if canonical !in disk.files && backup in disk.files {
        var restored := disk.RenameFile(backup, canonical);
        if !restored {
          return false;
        }
      }
      if temporary in disk.files {
        var removed := disk.RemoveFile(temporary);
        if !removed {
          return false;
        }
      }
      if backup in disk.files {
        var removed := disk.RemoveFile(backup);
        if !removed {
          return false;
        }
      }
      return true;
    }

    /** Second part: write, sync, close and read back the temporary file, or drop it. */
    method StageTransaction(disk: Storage, appended: Option<Bookmark>, removeIndex: nat, clear: bool)
      returns (ok: bool)
      requires disk.Valid()
      modifies disk
      ensures disk.Valid() && disk.faults >= old(disk.faults)
      ensures OnlyTouched(old(disk.history), old(disk.files), disk.history, disk.files,
                          Name(storeFilePath, Temporary))
      ensures ok ==>
                var list := Planned(appended, removeIndex, clear);
                && |list| <= PDF_MAX_PER_BOOK
                && Name(storeFilePath, Temporary) in disk.files
                && disk.files[Name(storeFilePath, Temporary)] == Payload(list)
      ensures !ok ==> disk.faults > old(disk.faults) || |Planned(appended, removeIndex, clear)| > PDF_MAX_PER_BOOK
    {
      var temporary := Name(storeFilePath, Temporary);
      ghost var h0, f0 := disk.history, disk.files;
      var isOpen := disk.OpenFileForWrite(temporary);
      if !isOpen {
        return false;
      }
      ghost var h, f := disk.history, disk.files;
      var logicalCount := PdfBookmarkCount(bookmarks, appended, removeIndex, clear);
      ok := logicalCount <= PDF_MAX_PER_BOOK;
      if ok {
        ok := WriteAndVerify(disk, temporary, appended, removeIndex, clear);
      } else {
        var _ := disk.Attempt();
      }
      TouchedJoin(h0, f0, h, f, disk.history, disk.files, temporary);
      if !ok {
        h, f := disk.history, disk.files;
        var _ := disk.RemoveFile(temporary);
        TouchedJoin(h0, f0, h, f, disk.history, disk.files, temporary);
      }
    }

    method WriteAndVerify(disk: Storage, temporary: Name, appended: Option<Bookmark>, removeIndex: nat, clear: bool)
      returns (ok: bool)
      requires disk.Valid() && temporary in disk.files
      requires |Planned(appended, removeIndex, clear)| <= PDF_MAX_PER_BOOK
      modifies disk
      ensures disk.Valid() && temporary in disk.files && disk.faults >= old(disk.faults)
      ensures OnlyTouched(old(disk.history), old(disk.files), disk.history, disk.files, temporary)
      ensures ok ==> disk.files[temporary] == Payload(Planned(appended, removeIndex, clear))
      ensures !ok && old(disk.files[temporary]) == [] ==> disk.faults > old(disk.faults)
    {
      ghost var h0, f0 := disk.history, disk.files;
      var wrote := WritePayload(disk, temporary, appended, removeIndex, clear);
      ghost var h, f := disk.history, disk.files;
      var synced := disk.WriteFile(temporary, []);
      TouchedJoin(h0, f0, h, f, disk.history, disk.files, temporary);
      Reassociate(f[temporary], [], []);
      var closed := disk.Attempt();
      if !wrote || !synced || !closed {
        return false;
      }
      ok := VerifyPdfTransaction(disk, temporary, appended, removeIndex, clear);
    }

    /** The promoting rename, undone if it fails and followed by dropping the backup if not. */
    method SwapIn(disk: Storage, hadCanonical: bool) returns (ok: bool)
      requires disk.Valid()
      requires Name(storeFilePath, Temporary) in disk.files && Name(storeFilePath, Canonical) !in disk.files
      requires hadCanonical <==> Name(storeFilePath, Backup) in disk.files
      modifies disk
      ensures disk.Valid() && old(disk.history) <= disk.history && disk.faults >= old(disk.faults)
      ensures var after := if ok then Some(old(disk.files)[Name(storeFilePath, Temporary)])
                           else View(old(disk.files), storeFilePath);
              && Showed(disk.history, |old(disk.history)|, storeFilePath, after, old(disk.files))
              && View(disk.files, storeFilePath) == after
              && SameElsewhere(disk.files, old(disk.files), storeFilePath)
      ensures ok ==>
                && Name(storeFilePath, Canonical) in disk.files && Name(storeFilePath, Temporary) !in disk.files
                && |disk.history| > |old(disk.history)|
                && disk.history[|old(disk.history)|].step
                   == Rename(Name(storeFilePath, Temporary), Name(storeFilePath, Canonical))
      ensures disk.faults == old(disk.faults) ==> ok && Clean(disk.files, storeFilePath)
    {
      var canonical, temporary, backup :=
        Name(storeFilePath, Canonical), Name(storeFilePath, Temporary), Name(storeFilePath, Backup);
      ok := disk.RenameFile(temporary, canonical);
      if !ok {
        if hadCanonical {
          var _ := disk.RenameFile(backup, canonical);
        }
        return;
      }
      if hadCanonical && backup in disk.files {
        var _ := disk.RemoveFile(backup);
      }
    }

    /** Last part: swap the verified file in, keeping the old one as backup until it is. */
    method PromoteTransaction(disk: Storage) returns (ok: bool, ghost commit: nat)
      requires disk.Valid()
      requires Name(storeFilePath, Temporary) in disk.files && Name(storeFilePath, Backup) !in disk.files
      modifies disk
      ensures disk.Valid() && old(disk.history) <= disk.history && disk.faults >= old(disk.faults)
      ensures var before := View(old(disk.files), storeFilePath);
              var after := Some(old(disk.files)[Name(storeFilePath, Temporary)]);
              && SwitchedOnce(disk.history, |old(disk.history)|, storeFilePath, before, after, commit, old(disk.files))
              && View(disk.files, storeFilePath) == (if ok then after else before)
              && SameElsewhere(disk.files, old(disk.files), storeFilePath)
      ensures ok <==> commit < |disk.history|
      ensures ok ==> Name(storeFilePath, Canonical) in disk.files && Name(storeFilePath, Temporary) !in disk.files
      ensures disk.faults == old(disk.faults) ==> ok && Clean(disk.files, storeFilePath)
    {
      var canonical, temporary, backup :=
        Name(storeFilePath, Canonical), Name(storeFilePath, Temporary), Name(storeFilePath, Backup);
      ghost var from, f0 := |disk.history|, disk.files;
      ghost var before, after := View(f0, storeFilePath), Some(f0[temporary]);
      var hadCanonical := disk.Exists(canonical);
      if hadCanonical {
        var backedUp := disk.RenameFile(canonical, backup);
        if !backedUp {
          var _ := disk.RemoveFile(temporary);
          Uncommitted(disk.history, from, storeFilePath, before, after, f0);
          return false, |disk.history|;
        }
      }
      ghost var h, f := disk.history, disk.files;
      assert Showed(h, from, storeFilePath, before, f0) && SameElsewhere(f, f0, storeFilePath);
      ok := SwapIn(disk, hadCanonical);
      commit := if ok then |h| else |disk.history|;
      if ok {
        Committed(h, disk.history, from, storeFilePath, before, after, f0, f);
      } else {
        ShowedJoin(h, disk.history, from, storeFilePath, before, f0, f);
        Uncommitted(disk.history, from, storeFilePath, before, after, f0);
      }
    }

    /** Records the planned list. Whatever debris was there and whatever fails, every state the card
        goes through shows the old bytes up to the promoting rename and the planned list from it on;
        true means the rename happened, false that it did not; without faults it always happens. */
    method WritePdfTransaction(disk: Storage, appended: Option<Bookmark>, removeIndex: nat, clear: bool)
      returns (ok: bool, ghost commit: nat)
      requires disk.Valid()
      modifies disk
      ensures disk.Valid() && old(disk.history) <= disk.history && disk.faults >= old(disk.faults)
      ensures var before := View(old(disk.files), storeFilePath);
              var list := Planned(appended, removeIndex, clear);
              var after := if |list| <= PDF_MAX_PER_BOOK then Some(Payload(list)) else before;
              && SwitchedOnce(disk.history, |old(disk.history)|, storeFilePath, before, after, commit, old(disk.files))
              && View(disk.files, storeFilePath) == (if ok then after else before)
              && SameElsewhere(disk.files, old(disk.files), storeFilePath)
      ensures ok <==> commit < |disk.history|
      ensures ok ==> storeFilePath.PdfStore? && |Planned(appended, removeIndex, clear)| <= PDF_MAX_PER_BOOK
      ensures ok ==> Name(storeFilePath, Canonical) in disk.files && Name(storeFilePath, Temporary) !in disk.files
      ensures disk.faults == old(disk.faults) ==>
                && (ok <==> storeFilePath.PdfStore? && |Planned(appended, removeIndex, clear)| <= PDF_MAX_PER_BOOK)
                && (ok ==> Clean(disk.files, storeFilePath))
    {
      if storeFilePath == Unset || !storeFilePath.PdfStore? {
        return false, |disk.history|;
      }
      ghost var before := View(disk.files, storeFilePath);
      var prepared := PrepareTransaction(disk);
      if !prepared {
        return false, |disk.history|;
      }
      ghost var h1, f1 := disk.history, disk.files;
      var staged := StageTransaction(disk, appended, removeIndex, clear);
      TouchedShows(h1, f1, disk.history, disk.files, storeFilePath);
      ShowedJoin(h1, disk.history, |old(disk.history)|, storeFilePath, before, old(disk.files), f1);
      if !staged {
        return false, |disk.history|;
      }
      ghost var h2, f2 := disk.history, disk.files;
      ok, commit := PromoteTransaction(disk);
      ghost var list := Planned(appended, removeIndex, clear);
      ShowedThenSwitched(h2, disk.history, |old(disk.history)|, storeFilePath, before, Some(Payload(list)),
                         commit, old(disk.files), f2);
    }

    /** Decides what a crash left behind: a canonical file is authoritative and its artifacts go; else
        the backup is restored; an unfinished temporary file is dropped. The authoritative bytes never
        change on the way, and success leaves exactly the recovered card. */
    method RecoverPdfTransaction(disk: Storage) returns (ok: bool)
      requires disk.Valid()
      modifies disk
      ensures disk.Valid() && old(disk.history) <= disk.history && disk.faults >= old(disk.faults)
      ensures Showed(disk.history, |old(disk.history)|, storeFilePath,
                     View(old(disk.files), storeFilePath), old(disk.files))
      ensures View(disk.files, storeFilePath) == View(old(disk.files), storeFilePath)
      ensures SameElsewhere(disk.files, old(disk.files), storeFilePath)
      ensures ok ==> storeFilePath != Unset && disk.files == Recovered(old(disk.files), storeFilePath)
      ensures !ok ==> storeFilePath == Unset || disk.faults > old(disk.faults)
    {
      if storeFilePath == Unset {
        return false;
      }
      var canonical, temporary, backup :=
        Name(storeFilePath, Canonical), Name(storeFilePath, Temporary), Name(storeFilePath, Backup);
      ghost var h0, f0, base := disk.history, disk.files, storeFilePath;
      if canonical in disk.files {
        ok := DeleteBookmarkStorePath(disk, temporary);
        TouchedShows(h0, f0, disk.history, disk.files, base);
        ghost var h, f := disk.history, disk.files;
        var removed := DeleteBookmarkStorePath(disk, backup);
        assert Showed(disk.history, |h|, base, View(f, base), f);
        ShowedJoin(h, disk.history, |h0|, base, View(f0, base), f0, f);
        return ok && removed;
      }
      if backup in disk.files {
        var restored := disk.RenameFile(backup, canonical);
        if !restored {
          return false;
        }
      }
      ghost var h, f := disk.history, disk.files;
      assert Showed(h, |h0|, base, View(f0, base), f0);
      ok := DeleteBookmarkStorePath(disk, temporary);
      TouchedShows(h, f, disk.history, disk.files, base);
      ShowedJoin(h, disk.history, |h0|, base, View(f0, base), f0, f);
    }

    // -------------------------------------------------------------- reading

    /** `readPod` into a variable: bytes the file does not have leave the variable as it was. */
    method ReadLength(file: FsFile) returns (n: nat)
      requires file.Valid()
      modifies file
      ensures file.Valid() && file.position >= old(file.position)
      ensures |file.data| - old(file.position) >= 4 ==>
                && file.position == old(file.position) + 4
                && n == DecodeU32(file.data[old(file.position)..file.position])
      ensures |file.data| - old(file.position) < 4 ==> file.position == |file.data|
    {
      var chunk := file.Read(4);
      if |chunk| == 4 {
        n := DecodeU32(chunk);
      } else {
        n := *;  // the length is never initialised
      }
    }

    /** `readString`: a string sized by the length, zero where the file ran out. When the file does
        run out the string can be no book path, whatever the length was. */
    method ReadText(file: FsFile) returns (s: bytes)
      requires file.Valid()
      modifies file
      ensures file.Valid()
      ensures var rest := file.data[old(file.position)..];
              match ParseText(rest)
              case Some((text, rest')) => s == text && file.data[file.position..] == rest'
              case None => file.position == |file.data| && !IsBookPath(s)
    {
      ghost var start := file.position;
      ghost var rest := file.data[start..];
      var n := ReadLength(file);
      ghost var middle := file.position;
      assert |rest| >= 4 ==> rest[..4] == file.data[start..start + 4];
      var chunk := file.Read(n);
      s := chunk + Zeros(n - |chunk|);
      if |rest| >= 4 && |rest| - 4 >= n {
        assert rest[4..4 + n] == chunk == s;
        assert rest[4 + n..] == file.data[file.position..];
      } else if s != [] {
        assert s[|s| - 1] == 0;
      }
    }

    /** One record field by field, each checked for truncation. */
    method ReadRecord(file: FsFile, version: Version) returns (r: Option<Bookmark>)
      requires file.Valid()
      modifies file
      ensures file.Valid()
      ensures r.Some? <==> |file.data| - old(file.position) >= RecordSize(version)
      ensures r.Some? ==>
                && file.position == old(file.position) + RecordSize(version)
                && r.value == DecodeRecord(file.data[old(file.position)..file.position], version)
    {
      ghost var start := file.position;
      var spine := file.Read(2);
      if |spine| != 2 { return None; }
      var progress := file.Read(4);
      if |progress| != 4 { return None; }
      var timestamp := file.Read(4);
      if |timestamp| != 4 { return None; }
      var title := file.Read(CHAPTER_TITLE_MAX);
      if |title| != CHAPTER_TITLE_MAX { return None; }
      var paragraph := NO_ID;
      if version >= PARAGRAPH_ANCHOR_VERSION {
        var chunk := file.Read(2);
        if |chunk| != 2 { return None; }
        paragraph := DecodeU16(chunk);
      }
      var snippet: Snippet := Zeros(SNIPPET_MAX);
      if version >= VERSION {
        var chunk := file.Read(SNIPPET_MAX);
        if |chunk| != SNIPPET_MAX { return None; }
        snippet := Terminate(chunk);
      }
      assert file.position == start + RecordSize(version);
      FieldsOfRecord(file.data, start, version);
      return Some(Bookmark(DecodeU16(spine), DecodeU32(progress), DecodeU32(timestamp), Terminate(title),
                           paragraph, snippet));
    }

    /** Reads a store file. Success gives what the bytes stand for; failure leaves `current` as it was
        and has a reason: no such file, bytes that are no store of this book, or a fault. */
    method ReadFromFile(disk: Storage, name: Name, current: seq<Bookmark>)
      returns (ok: bool, out: seq<Bookmark>, needsRewrite: bool)
      requires IsBookPath(bookFilePath)
      modifies disk`faults
      ensures disk.faults >= old(disk.faults)
      ensures ok ==> name in disk.files && DecodeFile(disk.files[name], bookFilePath) == Loaded(out, needsRewrite)
      ensures !ok ==> out == current
      ensures !ok ==> || disk.faults > old(disk.faults) || name !in disk.files
                      || DecodeFile(disk.files[name], bookFilePath) == Rejected
    {
      var isOpen, file := disk.OpenFileForRead(name);
      if !isOpen {
        return false, current, false;
      }
      var parsed, version := ReadContents(file);
      if parsed.None? {
        return false, current, false;
      }
      var closed := disk.Attempt();
      if !closed && name.base.PdfStore? {
        return false, current, false;
      }
      return true, parsed.value, version != VERSION;
    }

    /** Title and author, dropped, then the path. */
    method ReadStoredPath(file: FsFile) returns (s: bytes)
      requires file.Valid()
      modifies file
      ensures file.Valid()
      ensures var rest := file.data[old(file.position)..];
              match ParseStoredPath(rest)
              case Some((text, rest')) => s == text && file.data[file.position..] == rest'
              case None => !IsBookPath(s)
      ensures old(file.position) == |file.data| ==> !IsBookPath(s)
    {
      var _ := ReadText(file);
      var _ := ReadText(file);
      s := ReadText(file);
    }

    /** The record count; a field cut short by the end of the file still leaves some small number. */
    method ReadCount(file: FsFile, version: Version) returns (count: nat)
      requires file.Valid()
      modifies file
      ensures file.Valid()
      ensures var rest, size := file.data[old(file.position)..], CountSize(version);
              if |rest| >= size then count == DecodeCount(rest[..size], version) && file.data[file.position..] == rest[size..]
              else count <= MAX_BOOKMARKS && file.position == |file.data|
    {
      ghost var rest := file.data[file.position..];
      var size := CountSize(version);
      var chunk := file.Read(size);
      if |chunk| == size {
        assert chunk == rest[..size] && file.data[file.position..] == rest[size..];
        return DecodeCount(chunk, version);
      }
      return if |chunk| == 1 then chunk[0] else 0;
    }

    method ReadContents(file: FsFile) returns (r: Option<seq<Bookmark>>, version: byte)
      requires IsBookPath(bookFilePath)
      requires file.position == 0
      modifies file
      ensures match DecodeFile(file.data, bookFilePath)
              case Rejected => r == None
              case Loaded(list, old_) => r == Some(list) && old_ == (version != VERSION)
    {
      var chunk := file.Read(1);
      version := if |chunk| == 1 then chunk[0] else 0;
      if !(LEGACY_VERSION <= version <= VERSION) {
        return None, version;
      }
      var count := ReadCount(file, version);
      if count > MAX_BOOKMARKS {
        return None, version;
      }
      var stored := ReadStoredPath(file);
      if stored != bookFilePath {
        return None, version;
      }
      var records := ReadRecords(file, version, count);
      return records, version;
    }

    method ReadNext(file: FsFile, version: Version, ghost loaded: seq<Bookmark>, ghost left: nat)
      returns (record: Option<Bookmark>)
      requires file.Valid() && left > 0
      modifies file
      ensures file.Valid()
      ensures AfterLoading(file.data, old(file.position), version, loaded, left)
           == if record.None? then None
              else AfterLoading(file.data, file.position, version, loaded + [record.value], left - 1)
    {
      ghost var start := file.position;
      record := ReadRecord(file, version);
      if record.Some? { RecordLoaded(file.data, start, version, loaded, left); }
    }

    method ReadRecords(file: FsFile, version: Version, count: nat) returns (r: Option<seq<Bookmark>>)
      requires file.Valid()
      modifies file
      ensures match ParseRecords(file.data[old(file.position)..], version, count)
              case None => r == None
              case Some((list, _)) => r == Some(list)
    {
      ghost var whole := ParseRecords(file.data[file.position..], version, count);
      NothingLoaded(file.data, file.position, version, count);
      var loaded: seq<Bookmark> := [];
      var i := 0;
      while i < count
        invariant 0 <= i <= count
        invariant file.Valid()
        invariant whole == AfterLoading(file.data, file.position, version, loaded, count - i)
      {
        var record := ReadNext(file, version, loaded, count - i);
        if record.None? {
          return None;
        }
        loaded := loaded + [record.value];
        i := i + 1;
      }
      AllLoaded(file.data, file.position, version, loaded);
      return Some(loaded);
    }

    // -------------------------------------------------------------- loading

    /** Recovers the current store and, unless the keys collide, the legacy one. */
    method RecoverStores(disk: Storage, current: StorePath, legacy: StorePath) returns (ok: bool)
      requires disk.Valid() && current != Unset && legacy != Unset
      modifies disk, this`storeFilePath
      ensures disk.Valid() && old(disk.history) <= disk.history && disk.faults >= old(disk.faults)
      ensures forall i | |old(disk.history)| <= i < |disk.history| ::
                SameViews(disk.history[i].after, old(disk.files), current, legacy)
      ensures SameViews(disk.files, old(disk.files), current, legacy)
      ensures ok ==> Clean(disk.files, current) && Clean(disk.files, legacy)
      ensures !ok ==> disk.faults > old(disk.faults)
    {
      storeFilePath := current;
      ok := RecoverPdfTransaction(disk);
      if ok && legacy != current {
        ghost var h, f := disk.history, disk.files;
        storeFilePath := legacy;
        ok := RecoverPdfTransaction(disk);
        forall i | |old(disk.history)| <= i < |disk.history|
          ensures SameViews(disk.history[i].after, old(disk.files), current, legacy)
        {
          if i < |h| { assert disk.history[i] == h[i]; }
        }
      }
    }

    /** Reads the current store, then merges in what only the legacy store has. */
    method ReadStores(disk: Storage, current: StorePath, legacy: StorePath)
      returns (ok: bool, list: seq<Bookmark>, needsRewrite: bool)
      requires IsBookPath(bookFilePath)
      requires Clean(disk.files, current) && Clean(disk.files, legacy)
      modifies disk`faults
      ensures disk.faults >= old(disk.faults)
      ensures ok ==> BookList(disk.files, current, legacy, bookFilePath) == Some(list)
      ensures ok && !needsRewrite ==> StoreList(disk.files, current, bookFilePath) == Some(list)
      ensures !ok ==> disk.faults > old(disk.faults) || BookList(disk.files, current, legacy, bookFilePath) == None
    {
      var hasCurrent := disk.Exists(Name(current, Canonical));
      var hasLegacy := disk.Exists(Name(legacy, Canonical));
      hasLegacy := hasLegacy && legacy != current;
      list, needsRewrite := [], false;
      if hasCurrent {
        ok, list, needsRewrite := ReadFromFile(disk, Name(current, Canonical), []);
        if !ok {
          return;
        }
      }
      if hasLegacy {
        var read, legacyList, legacyNeedsRewrite := ReadFromFile(disk, Name(legacy, Canonical), []);
        if !read {
          return false, [], false;
        }
        var merged, mergedAny := MergeBookmarks(list, legacyList);
        list := merged;
        needsRewrite := needsRewrite || !hasCurrent || mergedAny || legacyNeedsRewrite;
      } else {
        assert Merge(list, []) == list;
      }
      ok := true;
    }

    /** Rewrites the current store with `bookmarks`, which the two stores together already show. */
    method RewriteStore(disk: Storage, current: StorePath, legacy: StorePath) returns (ok: bool)
      requires disk.Valid() && current.PdfStore? && storeFilePath == current
      requires BookList(disk.files, current, legacy, bookFilePath) == Some(bookmarks)
      modifies disk
      ensures disk.Valid() && old(disk.history) <= disk.history && disk.faults >= old(disk.faults)
      ensures ListKept(disk.history, |old(disk.history)|, current, legacy, bookFilePath, Some(bookmarks),
                       LegacyList(old(disk.files), current, legacy, bookFilePath), old(disk.files))
      ensures SameElsewhere(disk.files, old(disk.files), current)
      ensures ok ==> StoreList(disk.files, current, bookFilePath) == Some(bookmarks)
      ensures !ok ==> disk.faults > old(disk.faults) || |bookmarks| > PDF_MAX_PER_BOOK
    {
      ghost var f0, path := disk.files, bookFilePath;
      BookListFacts(f0, current, legacy, path);
      assert Planned(None, NO_INDEX, false) == bookmarks;
      ghost var commit;
      ok, commit := WritePdfTransaction(disk, None, NO_INDEX, false);
      ghost var after := View(f0, current);
      if |bookmarks| <= PDF_MAX_PER_BOOK {
        after := Some(Payload(bookmarks));
        PayloadReadsBack(bookmarks);
      }
      RewriteKeepsList(disk.history, |old(disk.history)|, current, legacy, path, bookmarks, commit, f0, after);
    }

    /** What a transaction records is what loading reads. */
    lemma PayloadReadsBack(list: seq<Bookmark>)
      requires AllTerminated(list) && |list| <= MAX_BOOKMARKS
      ensures ViewList(Some(Payload(list)), bookFilePath) == Some(list)
    {
      FileRoundTrip(bookTitle, bookAuthor, bookFilePath, bookFilePath, list, VERSION);
      CurrentVersionStoresAll(list);
    }

    /** Makes `bookmarks` the content of the current store if it has to be rewritten, then drops the
        legacy store it was merged from. */
    method SettleStores(disk: Storage, current: StorePath, legacy: StorePath, needsRewrite: bool) returns (ok: bool)
      requires disk.Valid() && current.PdfStore?
      requires Clean(disk.files, current) && Clean(disk.files, legacy)
      requires BookList(disk.files, current, legacy, bookFilePath) == Some(bookmarks)
      requires !needsRewrite ==> StoreList(disk.files, current, bookFilePath) == Some(bookmarks)
      modifies disk, this`storeFilePath
      ensures disk.Valid() && old(disk.history) <= disk.history && disk.faults >= old(disk.faults)
      ensures ListKept(disk.history, |old(disk.history)|, current, legacy, bookFilePath, Some(bookmarks),
                       LegacyList(old(disk.files), current, legacy, bookFilePath), old(disk.files))
      ensures ok ==>
                && StoreList(disk.files, current, bookFilePath) == Some(bookmarks)
                && (legacy != current ==> View(disk.files, legacy) == None)
      ensures ok && legacy != current ==>
                PassedBoth(disk.history, |old(disk.history)| - 1, current, legacy, bookFilePath, Some(bookmarks),
                           View(old(disk.files), legacy))
      ensures !ok ==> disk.faults > old(disk.faults) || |bookmarks| > PDF_MAX_PER_BOOK
    {
      ghost var f0, l := disk.files, LegacyList(disk.files, current, legacy, bookFilePath);
      storeFilePath := current;
      if needsRewrite {
        ok := RewriteStore(disk, current, legacy);
        if !ok {
          return;
        }
      }
      ghost var h, f := disk.history, disk.files;
      assert h[|h| - 1].after == f;
      if Name(legacy, Canonical) !in disk.files || legacy == current {
        return true;
      }
      assert l == StoreList(f, legacy, bookFilePath);
      ok := DeletePdfBookmarkStorePaths(disk, legacy, legacy);
      DropLegacyKeepsList(disk.history, |h|, current, legacy, bookFilePath, bookmarks, l, f, disk.files);
      ListKeptJoin(h, disk.history, |old(disk.history)|, current, legacy, bookFilePath, Some(bookmarks), l, f0, f);
      if ok {
        DeletedViews(f, legacy, legacy, |DeletionOrder(legacy, legacy)|);
      }
    }

    /** Recovers, reads, merges, rewrites and drops: the candidate's part of a load. */
    method LoadStores(disk: Storage, current: StorePath, legacy: StorePath) returns (ok: bool)
      requires disk.Valid() && current.PdfStore? && legacy.PdfStore? && IsBookPath(bookFilePath)
      modifies disk, this`bookmarks, this`storeFilePath
      ensures disk.Valid() && old(disk.history) <= disk.history && disk.faults >= old(disk.faults)
      ensures var before := BookList(old(disk.files), current, legacy, bookFilePath);
              && ListKept(disk.history, |old(disk.history)|, current, legacy, bookFilePath, before,
                          LegacyList(old(disk.files), current, legacy, bookFilePath), old(disk.files))
              && (ok ==> before == Some(bookmarks))
              && (!ok ==> disk.faults > old(disk.faults) || before == None || |before.value| > PDF_MAX_PER_BOOK)
      ensures ok ==>
                && StoreList(disk.files, current, bookFilePath) == Some(bookmarks)
                && (legacy != current ==> View(disk.files, legacy) == None)
      ensures ok && legacy != current ==>
                PassedBoth(disk.history, |old(disk.history)| - 1, current, legacy, bookFilePath, Some(bookmarks),
                           View(old(disk.files), legacy))
    {
      ghost var f0, from := disk.files, |disk.history|;
      ok := RecoverStores(disk, current, legacy);
      ghost var h, f := disk.history, disk.files;
      SameViewsKeepList(h, from, current, legacy, bookFilePath, f0);
      if !ok {
        return;
      }
      var list, needsRewrite;
      ok, list, needsRewrite := ReadStores(disk, current, legacy);
      if !ok {
        return;
      }
      bookmarks := list;
      ok := SettleStores(disk, current, legacy, needsRewrite);
      ListKeptJoin(h, disk.history, from, current, legacy, bookFilePath, Some(list),
                   LegacyList(f0, current, legacy, bookFilePath), f0, f);
    }

    /** Loads a book: recover both stores, merge the legacy one in, rewrite if needed, drop the legacy
        store. Every state on the way shows the book's list (or that list merged once more with the
        legacy records it already holds); success leaves it in memory and alone in the current store;
        failure leaves the memory as it was. */
    method LoadPdfForBook(disk: Storage, keys: PathKeys, filePath: BookPath, title: Text, author: Text)
      returns (ok: bool)
      requires disk.Valid()
      modifies disk, this
      ensures disk.Valid() && old(disk.history) <= disk.history && disk.faults >= old(disk.faults)
      ensures var current, legacy := StoreFor(keys, filePath, false), StoreFor(keys, filePath, true);
              var before := BookList(old(disk.files), current, legacy, filePath);
              && ListKept(disk.history, |old(disk.history)|, current, legacy, filePath, before,
                          LegacyList(old(disk.files), current, legacy, filePath), old(disk.files))
              && (!ok ==> disk.faults > old(disk.faults) || before == None || |before.value| > PDF_MAX_PER_BOOK)
              && (ok ==>
                    && before == Some(bookmarks)
                    && StoreList(disk.files, current, filePath) == Some(bookmarks)
                    && (legacy != current ==> View(disk.files, legacy) == None)
                    && storeFilePath == current)
              && (ok && legacy != current ==>
                    PassedBoth(disk.history, |old(disk.history)| - 1, current, legacy, filePath, before,
                               View(old(disk.files), legacy)))
      ensures ok ==> bookFilePath == filePath && bookTitle == title && bookAuthor == author && !dirty
      ensures !ok ==> unchanged(this)
    {
      var allocated_ := disk.Attempt();
      if !allocated_ {
        return false;
      }
      var ok1, current := PdfBookmarkStoreFilePathForBook(keys, filePath, false);
      var ok2, legacy := PdfBookmarkStoreFilePathForBook(keys, filePath, true);
      if !ok1 || !ok2 {
        return false;
      }
      var candidate := new Store();
      candidate.bookFilePath, candidate.bookTitle, candidate.bookAuthor := filePath, title, author;
      ok := candidate.LoadStores(disk, current, legacy);
      if !ok {
        return;
      }
      bookmarks, bookFilePath, bookTitle, bookAuthor := candidate.bookmarks, filePath, title, author;
      storeFilePath, dirty := current, false;
    }

    // -------------------------------------------------------------- changes

    /** The memory holds what the current store would load. */
    ghost predicate Agrees(files: Files)
      reads this
    {
      StoreList(files, storeFilePath, bookFilePath) == Some(bookmarks)
    }

    /** Records the planned list, seen as lists: the store shows the old list up to the commit and the
        planned one after it. */
    method Record(disk: Storage, appended: Option<Bookmark>, removeIndex: nat) returns (ok: bool)
      requires disk.Valid() && storeFilePath.PdfStore?
      requires appended.Some? ==> Terminated(appended.value)
      modifies disk
      ensures disk.Valid() && old(disk.history) <= disk.history && disk.faults >= old(disk.faults)
      ensures var planned := Planned(appended, removeIndex, false);
              && (ok ==> |planned| <= PDF_MAX_PER_BOOK)
              && (!ok ==> disk.faults > old(disk.faults) || |planned| > PDF_MAX_PER_BOOK)
              && (AllTerminated(bookmarks) ==>
                    && ListSwitch(disk.history, |old(disk.history)|, storeFilePath, bookFilePath,
                                  StoreList(old(disk.files), storeFilePath, bookFilePath),
                                  if |planned| <= PDF_MAX_PER_BOOK then Some(planned)
                                  else StoreList(old(disk.files), storeFilePath, bookFilePath),
                                  old(disk.files))
                    && StoreList(disk.files, storeFilePath, bookFilePath)
                       == (if ok then Some(planned) else StoreList(old(disk.files), storeFilePath, bookFilePath)))
      ensures SameElsewhere(disk.files, old(disk.files), storeFilePath)
    {
      ghost var planned := Planned(appended, removeIndex, false);
      ghost var commit, f0, from := 0, disk.files, |disk.history|;
      ok, commit := WritePdfTransaction(disk, appended, removeIndex, false);
      if AllTerminated(bookmarks) {
        var after := View(f0, storeFilePath);
        if |planned| <= PDF_MAX_PER_BOOK {
          after := Some(Payload(planned));
          PayloadReadsBack(planned);
        }
        SwitchedLists(disk.history, from, storeFilePath, bookFilePath, View(f0, storeFilePath), after, commit, f0);
      }
    }

    /** Records the list with one more bookmark, which then is in memory as well. */
    method AppendRecord(disk: Storage, bookmark: Bookmark) returns (ok: bool)
      requires disk.Valid() && storeFilePath.PdfStore? && Terminated(bookmark) && |bookmarks| < PDF_MAX_PER_BOOK
      modifies disk, this`bookmarks, this`dirty
      ensures disk.Valid() && old(disk.history) <= disk.history && disk.faults >= old(disk.faults)
      ensures !ok ==> disk.faults > old(disk.faults)
      ensures bookmarks == if ok then old(bookmarks) + [bookmark] else old(bookmarks)
      ensures dirty == (old(dirty) && !ok)
      ensures old(Agrees(disk.files)) ==> Agrees(disk.files)
      ensures AllTerminated(old(bookmarks)) ==>
                && ListSwitch(disk.history, |old(disk.history)|, storeFilePath, bookFilePath,
                              StoreList(old(disk.files), storeFilePath, bookFilePath),
                              Some(old(bookmarks) + [bookmark]), old(disk.files))
                && (if ok then Agrees(disk.files)
                    else StoreList(disk.files, storeFilePath, bookFilePath)
                         == StoreList(old(disk.files), storeFilePath, bookFilePath))
      ensures SameElsewhere(disk.files, old(disk.files), storeFilePath)
    {
      if StoreList(disk.files, storeFilePath, bookFilePath).Some? {
        StoreListFacts(disk.files, storeFilePath, bookFilePath);
      }
      assert Planned(Some(bookmark), NO_INDEX, false) == bookmarks + [bookmark];
      ok := Record(disk, Some(bookmark), NO_INDEX);
      if !ok {
        return;
      }
      bookmarks := bookmarks + [bookmark];
      dirty := false;
    }

    method AddPdfBookmark(disk: Storage, entry: Entry) returns (result: AddResult)
      requires disk.Valid()
      modifies disk, this`bookmarks, this`dirty
      ensures disk.Valid() && old(disk.history) <= disk.history && disk.faults >= old(disk.faults)
      ensures !storeFilePath.PdfStore? ==> result == SaveFailed
      ensures storeFilePath.PdfStore? ==>
                && (result == InvalidItemId <==> !ValidId(entry.itemId) || HasId(old(bookmarks), entry.itemId))
                && (result == LimitReached <==>
                      ValidId(entry.itemId) && !HasId(old(bookmarks), entry.itemId)
                      && |old(bookmarks)| >= PDF_MAX_PER_BOOK)
                && (result == SaveFailed ==> disk.faults > old(disk.faults))
      ensures bookmarks == if result == Added then old(bookmarks) + [entry.AsBookmark()] else old(bookmarks)
      ensures dirty == (old(dirty) && result != Added)
      ensures result == InvalidItemId || result == LimitReached ==> disk.history == old(disk.history)
      ensures old(Agrees(disk.files)) ==> Agrees(disk.files)
      ensures AllTerminated(old(bookmarks)) ==>
                && ListSwitch(disk.history, |old(disk.history)|, storeFilePath, bookFilePath,
                              StoreList(old(disk.files), storeFilePath, bookFilePath),
                              if CanAdd(old(bookmarks), entry.itemId) then Some(old(bookmarks) + [entry.AsBookmark()])
                              else StoreList(old(disk.files), storeFilePath, bookFilePath),
                              old(disk.files))
                && (if result == Added then Agrees(disk.files)
                    else StoreList(disk.files, storeFilePath, bookFilePath)
                         == StoreList(old(disk.files), storeFilePath, bookFilePath))
      ensures SameElsewhere(disk.files, old(disk.files), storeFilePath)
      ensures Healthy(old(bookmarks)) ==> Healthy(bookmarks)
    {
      ghost var f0 := disk.files;
      if !storeFilePath.PdfStore? {
        return SaveFailed;
      }
      var known := FindId(bookmarks, entry.itemId);
      if entry.itemId == 0 || entry.itemId == NO_ID || known < |bookmarks| {
        return InvalidItemId;
      }
      if |bookmarks| >= PDF_MAX_PER_BOOK {
        return LimitReached;
      }
      AdditionKeepsHealth(bookmarks, entry.AsBookmark());
      var ok := AppendRecord(disk, entry.AsBookmark());
      return if ok then Added else SaveFailed;
    }

    method RemovePdfBookmark(disk: Storage, itemId: u16) returns (ok: bool)
      requires disk.Valid() && |bookmarks| <= NO_INDEX
      modifies disk, this`bookmarks, this`dirty
      ensures disk.Valid() && old(disk.history) <= disk.history && disk.faults >= old(disk.faults)
      ensures ok ==> storeFilePath.PdfStore? && CanRemove(old(bookmarks), itemId)
      ensures !ok && storeFilePath.PdfStore? && CanRemove(bookmarks, itemId) ==> disk.faults > old(disk.faults)
      ensures bookmarks == if ok then WithoutId(old(bookmarks), itemId) else old(bookmarks)
      ensures dirty == (old(dirty) && !ok)
      ensures old(Agrees(disk.files)) ==> Agrees(disk.files)
      ensures AllTerminated(old(bookmarks)) ==>
                && ListSwitch(disk.history, |old(disk.history)|, storeFilePath, bookFilePath,
                              StoreList(old(disk.files), storeFilePath, bookFilePath),
                              if CanRemove(old(bookmarks), itemId) then Some(WithoutId(old(bookmarks), itemId))
                              else StoreList(old(disk.files), storeFilePath, bookFilePath),
                              old(disk.files))
                && (if ok then Agrees(disk.files)
                    else StoreList(disk.files, storeFilePath, bookFilePath)
                         == StoreList(old(disk.files), storeFilePath, bookFilePath))
      ensures SameElsewhere(disk.files, old(disk.files), storeFilePath)
      ensures Healthy(old(bookmarks)) ==> Healthy(bookmarks)
    {
      ghost var f0 := disk.files;
      if !storeFilePath.PdfStore? {
        return false;
      }
      var found := FindId(bookmarks, itemId);
      if found == |bookmarks| {
        return false;
      }
      if StoreList(f0, storeFilePath, bookFilePath).Some? {
        StoreListFacts(f0, storeFilePath, bookFilePath);
      }
      assert Planned(None, found, false) == WithoutId(bookmarks, itemId);
      ok := Record(disk, None, found);
      if !ok {
        return false;
      }
      RemovalKeepsHealth(bookmarks, found);
      bookmarks := bookmarks[..found] + bookmarks[found + 1..];
      dirty := false;
    }

    /** Success empties memory and card. Failure leaves the memory; then the current store differs from
        what it was exactly if it was held by its backup alone and the backup is already gone. */
    method ClearPdfBookmarks(disk: Storage, keys: PathKeys) returns (ok: bool)
      requires disk.Valid()
      modifies disk, this`bookmarks, this`dirty
      ensures disk.Valid() && old(disk.history) <= disk.history && disk.faults >= old(disk.faults)
      ensures bookmarks == if ok then [] else old(bookmarks)
      ensures dirty == (old(dirty) && !ok)
      ensures !ok ==> !storeFilePath.PdfStore? || disk.faults > old(disk.faults)
      ensures var legacy := StoreFor(keys, bookFilePath, true);
              && (forall i | |old(disk.history)| <= i < |disk.history| ::
                    DeletedPrefix(disk.history[i].after, old(disk.files), DeletionOrder(storeFilePath, legacy)))
              && DeletedPrefix(disk.files, old(disk.files), DeletionOrder(storeFilePath, legacy))
              && (ok ==> View(disk.files, storeFilePath) == None && View(disk.files, legacy) == None)
      ensures !ok ==>
                (View(disk.files, storeFilePath) == View(old(disk.files), storeFilePath)
                 <==> || Authoritative(old(disk.files), storeFilePath)
                      || |disk.history| == |old(disk.history)|)
    {
      ghost var f0, from := disk.files, |disk.history|;
      if !storeFilePath.PdfStore? {
        assert f0 == Deleted(f0, DeletionOrder(storeFilePath, StoreFor(keys, bookFilePath, true)), 0);
        return false;
      }
      var formatted, legacyPath := PdfBookmarkStoreFilePathForBook(keys, bookFilePath, true);
      if !formatted {
        return false;
      }
      ok := DeletePdfBookmarkStorePaths(disk, storeFilePath, legacyPath);
      ghost var order := DeletionOrder(storeFilePath, legacyPath);
      ghost var k: nat :| k <= |order| && disk.files == Deleted(f0, order, k) && (ok <==> k == |order|);
      DeletedViews(f0, storeFilePath, legacyPath, k);
      if !ok {
        return;
      }
      bookmarks := [];
      dirty := false;
    }
  }

  datatype AddResult = Added | LimitReached | SaveFailed | InvalidItemId

  /** The arguments of an add; a missing text counts as empty. */
  datatype Entry = Entry(spineIndex: u16, progress: u32, chapterTitle: Option<CString>, itemId: u16,
                         snippet: Option<CString>)
  {
    function AsBookmark(): Bookmark {
      Bookmark(spineIndex, progress, 0,
               FixedText(if chapterTitle.Some? then chapterTitle.value else [], CHAPTER_TITLE_MAX),
               itemId,
               FixedText(if snippet.Some? then snippet.value else [], SNIPPET_MAX))
    }
  }

  ghost predicate HasId(list: seq<Bookmark>, id: u16) {
    exists b :: b in list && b.paragraphIndex == id
  }

  /** An id that is new, in a list below the cap, can be added. */
  ghost predicate CanAdd(list: seq<Bookmark>, id: u16) {
    ValidId(id) && !HasId(list, id) && |list| < PDF_MAX_PER_BOOK
  }

  /** An id that is there can be removed if the rest fits the cap. */
  ghost predicate CanRemove(list: seq<Bookmark>, id: u16) {
    HasId(list, id) && |list| <= PDF_MAX_PER_BOOK + 1
  }

  /** What parsing from `at` on gives once `loaded` has been read and `left` records remain. */
  ghost function AfterLoading(data: bytes, at: nat, version: Version, loaded: seq<Bookmark>, left: nat)
    : Option<(seq<Bookmark>, bytes)>
    requires at <= |data|
  {
    match ParseRecords(data[at..], version, left)
    case None => None
    case Some((list, end)) => Some((loaded + list, end))
  }

  lemma NothingLoaded(data: bytes, at: nat, version: Version, count: nat)
    requires at <= |data|
    ensures AfterLoading(data, at, version, [], count) == ParseRecords(data[at..], version, count)
  {
    if ParseRecords(data[at..], version, count).Some? {
      var list := ParseRecords(data[at..], version, count).value.0;
      assert [] + list == list;
    }
  }

  lemma AllLoaded(data: bytes, at: nat, version: Version, loaded: seq<Bookmark>)
    requires at <= |data|
    ensures AfterLoading(data, at, version, loaded, 0) == Some((loaded, data[at..]))
  {
    assert loaded + [] == loaded;
  }

  lemma RecordLoaded(data: bytes, start: nat, version: Version, loaded: seq<Bookmark>, left: nat)
    requires left > 0 && start + RecordSize(version) <= |data|
    ensures var end := start + RecordSize(version);
            AfterLoading(data, start, version, loaded, left)
            == AfterLoading(data, end, version, loaded + [DecodeRecord(data[start..end], version)], left - 1)
  {
    var size := RecordSize(version);
    var rest, end := data[start..], start + size;
    assert rest[..size] == data[start..end] && rest[size..] == data[end..];
    if ParseRecords(data[end..], version, left - 1).Some? {
      var tail := ParseRecords(data[end..], version, left - 1).value.0;
      var record := DecodeRecord(data[start..end], version);
      assert loaded + ([record] + tail) == loaded + [record] + tail;
    }
  }

  /** The fields of a record, each where the reader finds it. */
  lemma FieldsOfRecord(data: bytes, start: nat, version: Version)
    requires start + RecordSize(version) <= |data|
    ensures DecodeRecord(data[start..start + RecordSize(version)], version)
         == Bookmark(DecodeU16(data[start..start + 2]), DecodeU32(data[start + 2..start + 6]),
                     DecodeU32(data[start + 6..start + 10]), Terminate(data[start + 10..start + 58]),
                     if version >= PARAGRAPH_ANCHOR_VERSION then DecodeU16(data[start + 58..start + 60]) else NO_ID,
                     if version >= VERSION then Terminate(data[start + 60..start + 124]) else Zeros(SNIPPET_MAX))
  {
    var end := start + RecordSize(version);
    SliceOfSlice(data, start, end, 0, 2);
    SliceOfSlice(data, start, end, 2, 6);
    SliceOfSlice(data, start, end, 6, 10);
    SliceOfSlice(data, start, end, 10, 58);
    if version >= PARAGRAPH_ANCHOR_VERSION { SliceOfSlice(data, start, end, 58, 60); }
    if version >= VERSION { SliceOfSlice(data, start, end, 60, 124); }
  }

  ghost function WithoutId(list: seq<Bookmark>, id: u16): seq<Bookmark> {
    if list == [] then []
    else if list[0].paragraphIndex == id then list[1..]
    else [list[0]] + WithoutId(list[1..], id)
  }

  lemma {:induction false} WithoutIdIs(list: seq<Bookmark>, id: u16, k: nat)
    requires k <= |list| && (k < |list| ==> list[k].paragraphIndex == id)
    requires forall i | 0 <= i < k :: list[i].paragraphIndex != id
    ensures WithoutId(list, id) == WithoutIndex(list, k)
  {
    if k > 0 { WithoutIdIs(list[1..], id, k - 1); }
  }

  method FindId(list: seq<Bookmark>, id: u16) returns (index: nat)
    ensures index <= |list| && (index < |list| <==> HasId(list, id))
    ensures WithoutId(list, id) == WithoutIndex(list, index)
  {
    index := 0;
    while index < |list| && list[index].paragraphIndex != id
      invariant index <= |list|
      invariant forall i | 0 <= i < index :: list[i].paragraphIndex != id
    {
      index := index + 1;
    }
    WithoutIdIs(list, id, index);
  }

  lemma AdditionKeepsHealth(list: seq<Bookmark>, b: Bookmark)
    requires CanAdd(list, b.paragraphIndex) && Terminated(b)
    ensures Healthy(list) ==> Healthy(list + [b])
  {
    forall i | 0 <= i < |list| ensures list[i].paragraphIndex != b.paragraphIndex {
      assert list[i] in list;
    }
  }

  lemma RemovalKeepsHealth(list: seq<Bookmark>, k: nat)
    requires k < |list|
    ensures WithoutIndex(list, k) == list[..k] + list[k + 1..]
    ensures Healthy(list) ==> Healthy(WithoutIndex(list, k))
  {
  }

  /** What the store keeps of its own lists: distinct valid ids, terminated texts, at most 64. */
  ghost predicate Healthy(list: seq<Bookmark>) {
    DistinctIds(list) && AllIdsValid(list) && AllTerminated(list) && |list| <= PDF_MAX_PER_BOOK
  }

  /** From event `from` on the store shows one of two lists and the other stores are as in `frame`. */
  ghost predicate ListSwitch(h: seq<Event>, from: nat, base: StorePath, path: bytes, before: Option<seq<Bookmark>>,
                             after: Option<seq<Bookmark>>, frame: Files) {
    forall i | from <= i < |h| ::
      && (StoreList(h[i].after, base, path) == before || StoreList(h[i].after, base, path) == after)
      && SameElsewhere(h[i].after, frame, base)
  }

  lemma SwitchedLists(h: seq<Event>, from: nat, base: StorePath, path: bytes, before: Option<bytes>,
                      after: Option<bytes>, commit: nat, f0: Files)
    requires SwitchedOnce(h, from, base, before, after, commit, f0)
    ensures ListSwitch(h, from, base, path, ViewList(before, path), ViewList(after, path), f0)
  {
  }

  lemma SameViewsKeepList(h: seq<Event>, from: nat, current: StorePath, legacy: StorePath, path: bytes, f0: Files)
    requires forall i | from <= i < |h| :: SameViews(h[i].after, f0, current, legacy)
    ensures ListKept(h, from, current, legacy, path, BookList(f0, current, legacy, path),
                     LegacyList(f0, current, legacy, path), f0)
  {
  }

  lemma RewriteKeepsList(h: seq<Event>, from: nat, current: StorePath, legacy: StorePath, path: bytes,
                         list: seq<Bookmark>, commit: nat, f0: Files, after: Option<bytes>)
    requires BookList(f0, current, legacy, path) == Some(list)
    requires SwitchedOnce(h, from, current, View(f0, current), after, commit, f0)
    requires after == View(f0, current) || ViewList(after, path) == Some(list)
    ensures ListKept(h, from, current, legacy, path, Some(list), LegacyList(f0, current, legacy, path), f0)
  {
    forall i | from <= i < |h|
      ensures (BookList(h[i].after, current, legacy, path) == Some(list)
               || BookList(h[i].after, current, legacy, path)
                  == Combine(Some(list), LegacyList(f0, current, legacy, path)))
              && LegacyKeptOrGone(h[i].after, f0, current, legacy)
              && SameOutside(h[i].after, f0, current, legacy)
    {
      RewrittenStateKeepsList(h[i].after, current, legacy, path, list, f0, after);
    }
  }

  lemma RewrittenStateKeepsList(f: Files, current: StorePath, legacy: StorePath, path: bytes,
                                list: seq<Bookmark>, f0: Files, after: Option<bytes>)
    requires BookList(f0, current, legacy, path) == Some(list)
    requires SameElsewhere(f, f0, current)
    requires View(f, current) == View(f0, current) || View(f, current) == after
    requires after == View(f0, current) || ViewList(after, path) == Some(list)
    ensures BookList(f, current, legacy, path) == Some(list)
            || BookList(f, current, legacy, path) == Combine(Some(list), LegacyList(f0, current, legacy, path))
    ensures LegacyKeptOrGone(f, f0, current, legacy) && SameOutside(f, f0, current, legacy)
  {
    assert legacy != current ==> View(f, legacy) == View(f0, legacy);
  }

  lemma DropLegacyKeepsList(h: seq<Event>, from: nat, current: StorePath, legacy: StorePath, path: bytes,
                            list: seq<Bookmark>, l: Option<seq<Bookmark>>, f: Files, end: Files)
    requires legacy != current && l == StoreList(f, legacy, path) && l.Some?
    requires StoreList(f, current, path) == Some(list)
    requires forall i | from <= i < |h| :: DeletedPrefix(h[i].after, f, DeletionOrder(legacy, legacy))
    requires DeletedPrefix(end, f, DeletionOrder(legacy, legacy))
    ensures ListKept(h, from, current, legacy, path, Some(list), l, f)
    ensures View(end, current) == View(f, current) && SameOutside(end, f, current, legacy)
    ensures LegacyKeptOrGone(end, f, current, legacy)
  {
    forall g | DeletedPrefix(g, f, DeletionOrder(legacy, legacy))
      ensures && (BookList(g, current, legacy, path) == Some(list)
                  || BookList(g, current, legacy, path) == Combine(Some(list), l))
              && LegacyKeptOrGone(g, f, current, legacy)
              && SameOutside(g, f, current, legacy) && View(g, current) == View(f, current)
    {
      var k: nat :| k <= |DeletionOrder(legacy, legacy)| && g == Deleted(f, DeletionOrder(legacy, legacy), k);
      DeletedViews(f, legacy, legacy, k);
      assert Merge(list, []) == list;
    }
  }

  lemma TwoParts(data: bytes, header: bytes, records: bytes)
    ensures data == header + records
       <==> At(data, 0, header) && At(data, |header|, records) && |header| + |records| == |data|
  {
    AtParts(data, 0, header, records);
    WholeFile(data, header + records);
  }

  /** From `at` on stand the records from `index` on. */
  ghost predicate RestMatches(data: bytes, at: nat, list: seq<Bookmark>, index: nat)
    requires index <= |list|
  {
    At(data, at, EncodeRecords(list[index..], VERSION))
  }

  ghost function RestEnd(at: nat, list: seq<Bookmark>, index: nat): nat
    requires index <= |list|
  {
    at + |EncodeRecords(list[index..], VERSION)|
  }

  lemma WholeRests(data: bytes, at: nat, list: seq<Bookmark>)
    ensures RestMatches(data, at, list, 0) == At(data, at, EncodeRecords(list, VERSION))
    ensures RestEnd(at, list, 0) == at + |EncodeRecords(list, VERSION)|
  {
    assert list[0..] == list;
  }

  lemma NothingRests(data: bytes, at: nat, list: seq<Bookmark>)
    requires at <= |data|
    ensures RestMatches(data, at, list, |list|) && RestEnd(at, list, |list|) == at
  {
    assert data[at..at] == [];
  }

  lemma NextRecord(data: bytes, at: nat, list: seq<Bookmark>, index: nat)
    requires index < |list|
    ensures var r := Flatten(RecordPieces(list[index]));
            && RestMatches(data, at, list, index) == (At(data, at, r) && RestMatches(data, at + |r|, list, index + 1))
            && RestEnd(at, list, index) == RestEnd(at + |r|, list, index + 1)
  {
    assert list[index..][1..] == list[index + 1..];
    AtParts(data, at, EncodeRecord(list[index], VERSION), EncodeRecords(list[index + 1..], VERSION));
    RecordPiecesFlatten(list[index]);
  }

}

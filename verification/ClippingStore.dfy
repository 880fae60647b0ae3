/** The clipping store of a book that is not a PDF: every change rewrites the file, copying the texts
    from the old file to the new one. */
module ClippingStore {
  import opened Bytes
  import opened Wrappers
  import opened HalStorage
  import opened ClippingCodec

  /** A store file being written. A write that reports success is taken at its word; one that does not
      may leave anything. */
  class Output {
    var data: bytes

    constructor ()
      ensures data == []
    {
      data := [];
    }

    method Write(disk: Storage, chunk: bytes) returns (ok: bool)
      modifies this, disk`faults
      ensures disk.faults >= old(disk.faults) && (!ok ==> disk.faults > old(disk.faults))
      ensures ok ==> data == old(data) + chunk
    {
      ok := disk.Attempt();
      if ok {
        data := data + chunk;
      } else {
        data := *;
      }
    }
  }

  // ---------------------------------------------------------------- copying

  const COPY_BUFFER := 128

  /** `f.seek`: fails past the end. */
  method Seek(disk: Storage, file: FsFile, offset: nat) returns (ok: bool)
    requires file.Valid()
    modifies file, disk`faults
    ensures file.Valid() && disk.faults >= old(disk.faults)
    ensures ok ==> offset <= |file.data| && file.position == offset
    ensures !ok ==> offset > |file.data| || disk.faults > old(disk.faults)
  {
    if offset > |file.data| {
      return false;
    }
    ok := disk.Attempt();
    if ok {
      file.position := offset;
    }
  }

  /** Copies `length` bytes in chunks of at most 128; fails if the source runs out. */
  method CopyBytes(disk: Storage, source: FsFile, output: Output, length: nat) returns (ok: bool)
    requires source.Valid()
    modifies source, output, disk`faults
    ensures source.Valid() && disk.faults >= old(disk.faults)
    ensures ok ==>
              && old(source.position) + length <= |source.data|
              && output.data == old(output.data) + source.data[old(source.position)..old(source.position) + length]
    ensures !ok ==> old(source.position) + length > |source.data| || disk.faults > old(disk.faults)
  {
    var left := length;
    ghost var start := source.position;
    while left > 0
      invariant 0 <= left <= length && source.Valid() && source.position == start + (length - left)
      invariant output.data == old(output.data) + source.data[start..source.position]
      invariant disk.faults >= old(disk.faults)
    {
      var chunk := if left < COPY_BUFFER then left else COPY_BUFFER;
      ghost var here := source.position;
      var bytes := source.Read(chunk);
      if |bytes| != chunk {
        return false;
      }
      ok := output.Write(disk, bytes);
      if !ok {
        return false;
      }
      assert source.data[start..here] + source.data[here..here + chunk] == source.data[start..here + chunk];
      left := left - chunk;
    }
    return true;
  }

  // ---------------------------------------------------------------- what a rewrite is to produce

  function Cut(text: bytes): (r: bytes)
    ensures |r| <= TEXT_MAX && r <= text
  {
    if |text| > TEXT_MAX then text[..TEXT_MAX] else text
  }

  /** A text given for one of the clippings instead of the one on the card. */
  datatype Replacement = Replacement(index: nat, text: bytes)

  predicate Replaces(r: Option<Replacement>, i: nat) { r.Some? && r.value.index == i }

  /** Every text not replaced is on the card. */
  ghost predicate Available(old_: Option<bytes>, list: seq<Clipping>, r: Option<Replacement>) {
    forall i | 0 <= i < |list| && !Replaces(r, i) && list[i].textLength > 0 ::
      old_.Some? && TextInside(old_.value, list[i])
  }

  /** The excerpt clipping `i` stands for, once rewritten. */
  ghost function Intended(old_: Option<bytes>, list: seq<Clipping>, r: Option<Replacement>, i: nat): Excerpt
    requires i < |list| && Available(old_, list, r)
  {
    Excerpt(list[i].fields,
            if Replaces(r, i) then Cut(r.value.text)
            else if list[i].textLength > 0 then TextAt(old_.value, list[i])
            else [])
  }

  ghost function AllIntended(old_: Option<bytes>, list: seq<Clipping>, r: Option<Replacement>, n: nat): (es: seq<Excerpt>)
    requires n <= |list| && Available(old_, list, r)
    ensures |es| == n && AllBounded(es)
  {
    seq(n, i requires 0 <= i < n => Intended(old_, list, r, i))
  }

  // ---------------------------------------------------------------- the store

  class Store {
    var clippings: seq<Clipping>
    var storeFilePath: StorePath
    var bookTitle: Text
    var bookAuthor: Text
    var bookFilePath: Text
    var dirty: bool

    /** The strings of the header leave room for offsets of 32 bits. */
    ghost predicate HeaderFits()
      reads this
    {
      |bookTitle| + |bookAuthor| + |bookFilePath| <= INT_MAX
    }

    /** What the card holds for this store: the file itself, or the backup of an unfinished rewrite. */
    ghost function Card(files: Files): Option<bytes>
      reads this
    {
      View(files, storeFilePath)
    }

    /** Every clipping in memory has its text on the card. */
    ghost predicate Valid(files: Files)
      reads this
    {
      && storeFilePath.OtherStore? && HeaderFits() && |clippings| <= MAX_PER_BOOK
      && Held(Card(files), clippings) && (Card(files).Some? ==> |Card(files).value| < 0x1_0000_0000)
    }

    ghost function Header(count: u16): bytes
      reads this
    {
      EncodeHeader(count, bookTitle, bookAuthor, bookFilePath)
    }

    // -------------------------------------------------------------- writing one file

    method WriteText(disk: Storage, output: Output, s: Text) returns (ok: bool)
      modifies output, disk`faults
      ensures disk.faults >= old(disk.faults) && (!ok ==> disk.faults > old(disk.faults))
      ensures ok ==> output.data == old(output.data) + EncodeText(s)
    {
      ok := output.Write(disk, EncodeU32(|s|));
      if ok && |s| > 0 {
        ok := output.Write(disk, s);
      }
      if ok { assert old(output.data) + (EncodeU32(|s|) + s) == old(output.data) + EncodeU32(|s|) + s; }
    }

    method WriteHeader(disk: Storage, output: Output, count: u16) returns (ok: bool)
      requires output.data == []
      modifies output, disk`faults
      ensures disk.faults >= old(disk.faults) && (!ok ==> disk.faults > old(disk.faults))
      ensures ok ==> output.data == Header(count)
    {
      ok := output.Write(disk, [VERSION]);
      if ok { ok := output.Write(disk, EncodeU16(count)); }
      if ok { ok := WriteText(disk, output, bookTitle); }
      if ok { ok := WriteText(disk, output, bookAuthor); }
      if ok { ok := WriteText(disk, output, bookFilePath); }
    }

    /** The text a rewrite writes for clipping `i`, if it can be had. */
    ghost function TextSource(source: Option<FsFile>, i: nat, r: Option<Replacement>, length: nat): Option<bytes>
      requires i < |clippings|
      reads this
    {
      var offset := clippings[i].textOffset;
      if Replaces(r, i) then Some(Cut(r.value.text))
      else if length == 0 then Some([])
      else if source.Some? && offset + length <= |source.value.data| then Some(source.value.data[offset..offset + length])
      else None
    }

    /** One record, its text taken from the replacement or copied from the old file. */
    method WriteClipping(disk: Storage, output: Output, source: Option<FsFile>, i: nat, r: Option<Replacement>)
      returns (ok: bool, offset: u32, length: u16)
      requires i < |clippings| && (source.Some? ==> source.value.Valid())
      requires |output.data| + HEAD_SIZE < 0x1_0000_0000
      modifies output, disk`faults, if source.Some? then {source.value} else {}
      ensures (source.Some? ==> source.value.Valid()) && disk.faults >= old(disk.faults)
      ensures length == (if Replaces(r, i) then |Cut(r.value.text)| else clippings[i].textLength)
      ensures !ok ==> disk.faults > old(disk.faults) || TextSource(source, i, r, length).None?
      ensures ok ==>
                && offset == |old(output.data)| + HEAD_SIZE
                && TextSource(source, i, r, length).Some?
                && output.data == old(output.data) + Head(clippings[i].fields, length)
                                  + TextSource(source, i, r, length).value
    {
      var c := clippings[i];
      offset := 0;
      length := if Replaces(r, i) then |Cut(r.value.text)| else c.textLength;
      ok := output.Write(disk, FieldBytes(c.fields));
      if !ok {
        return;
      }
      ok := output.Write(disk, EncodeU16(length));
      if !ok {
        return;
      }
      assert output.data == old(output.data) + Head(c.fields, length);
      offset := Cast32(|output.data|);
      if length > 0 && Replaces(r, i) {
        ok := output.Write(disk, Cut(r.value.text));
      } else if length > 0 {
        if source.None? {
          return false, offset, length;
        }
        ok := Seek(disk, source.value, c.textOffset);
        if ok {
          ok := CopyBytes(disk, source.value, output, length);
        }
      }
    }

    /** One record further. */
    method WriteNext(disk: Storage, output: Output, source: Option<FsFile>, i: nat, r: Option<Replacement>,
                     ghost card: Option<bytes>, ghost kept: seq<Clipping>)
      returns (ok: bool, c: Clipping)
      requires HeaderFits() && |clippings| <= MAX_PER_BOOK && Available(card, clippings, r) && i < |clippings|
      requires if source.Some? then source.value.Valid() && card == Some(source.value.data) else card == None
      requires Written(Header(|clippings|), output.data, AllIntended(card, clippings, r, i), kept)
      modifies output, disk`faults, if source.Some? then {source.value} else {}
      ensures source.Some? ==> source.value.Valid()
      ensures disk.faults >= old(disk.faults) && (!ok ==> disk.faults > old(disk.faults))
      ensures ok ==> Written(Header(|clippings|), output.data, AllIntended(card, clippings, r, i + 1), kept + [c])
    {
      ghost var before := output.data;
      var offset, length;
      ok, offset, length := WriteClipping(disk, output, source, i, r);
      TextIsThere(card, source, r, i, length);
      c := Clipping(clippings[i].fields, offset, length);
      if ok { RecordWritten(before, output.data, card, source, r, i, kept, c); }
    }

    method WriteRecords(disk: Storage, output: Output, source: Option<FsFile>, r: Option<Replacement>,
                        ghost card: Option<bytes>)
      returns (ok: bool, kept: seq<Clipping>)
      requires HeaderFits() && |clippings| <= MAX_PER_BOOK && Available(card, clippings, r)
      requires if source.Some? then source.value.Valid() && card == Some(source.value.data) else card == None
      requires output.data == Header(|clippings|)
      modifies output, disk`faults, if source.Some? then {source.value} else {}
      ensures disk.faults >= old(disk.faults) && (!ok ==> disk.faults > old(disk.faults))
      ensures ok ==> Written(Header(|clippings|), output.data, AllIntended(card, clippings, r, |clippings|), kept)
    {
      kept := [];
      var i := 0;
      while i < |clippings|
        invariant 0 <= i <= |clippings| && disk.faults >= old(disk.faults)
        invariant source.Some? ==> source.value.Valid()
        invariant Written(Header(|clippings|), output.data, AllIntended(card, clippings, r, i), kept)
      {
        var c;
        ok, c := WriteNext(disk, output, source, i, r, card, kept);
        if !ok {
          return false, kept;
        }
        kept := kept + [c];
        i := i + 1;
      }
      ok := true;
    }

    lemma TextIsThere(card: Option<bytes>, source: Option<FsFile>, r: Option<Replacement>, i: nat, length: nat)
      requires Available(card, clippings, r) && i < |clippings|
      requires if source.Some? then card == Some(source.value.data) else card == None
      requires length == if Replaces(r, i) then |Cut(r.value.text)| else clippings[i].textLength
      ensures TextSource(source, i, r, length).Some?
    {
    }

    lemma RecordWritten(before: bytes, after: bytes, card: Option<bytes>, source: Option<FsFile>, r: Option<Replacement>,
                        i: nat, kept: seq<Clipping>, c: Clipping)
      requires |clippings| <= MAX_PER_BOOK && Available(card, clippings, r) && i < |clippings|
      requires if source.Some? then card == Some(source.value.data) else card == None
      requires Written(Header(|clippings|), before, AllIntended(card, clippings, r, i), kept)
      requires c.fields == clippings[i].fields && c.textOffset == |before| + HEAD_SIZE
      requires c.textLength == (if Replaces(r, i) then |Cut(r.value.text)| else clippings[i].textLength)
      requires TextSource(source, i, r, c.textLength).Some?
      requires after == before + Head(c.fields, c.textLength) + TextSource(source, i, r, c.textLength).value
      ensures Written(Header(|clippings|), after, AllIntended(card, clippings, r, i + 1), kept + [c])
    {
      var es, e := AllIntended(card, clippings, r, i), Intended(card, clippings, r, i);
      SourceIsIntended(card, source, r, i, c.textLength);
      assert AllIntended(card, clippings, r, i + 1) == es + [e];
      Reassociate(before, Head(c.fields, c.textLength), e.text);
      WrittenNext(Header(|clippings|), before, es, kept, e, c);
    }

    lemma SourceIsIntended(card: Option<bytes>, source: Option<FsFile>, r: Option<Replacement>, i: nat, length: nat)
      requires Available(card, clippings, r) && i < |clippings|
      requires if source.Some? then card == Some(source.value.data) else card == None
      requires length == if Replaces(r, i) then |Cut(r.value.text)| else clippings[i].textLength
      requires TextSource(source, i, r, length).Some?
      ensures TextSource(source, i, r, length).value == Intended(card, clippings, r, i).text
      ensures length == |Intended(card, clippings, r, i).text|
    {
    }

    // -------------------------------------------------------------- the rewrite on the card

    /** Restores a backup left alone and clears what an earlier rewrite left; only the first can stop
        the rewrite. */
    method TidyUp(disk: Storage) returns (ok: bool)
      requires disk.Valid()
      modifies disk
      ensures disk.Valid() && Card(disk.files) == Card(old(disk.files)) && disk.faults >= old(disk.faults)
      ensures SameElsewhere(disk.files, old(disk.files), storeFilePath)
      ensures ok && Name(storeFilePath, Canonical) !in disk.files ==> Name(storeFilePath, Backup) !in disk.files
      ensures disk.faults == old(disk.faults) ==> ok && Clean(disk.files, storeFilePath)
    {
      var store, temporary, backup :=
        Name(storeFilePath, Canonical), Name(storeFilePath, Temporary), Name(storeFilePath, Backup);
      if store !in disk.files && backup in disk.files {
        ok := disk.RenameFile(backup, store);
        if !ok {
          return false;
        }
      }
      if temporary in disk.files {
        var _ := disk.RemoveFile(temporary);
      }
      if backup in disk.files && store in disk.files {
        var _ := disk.RemoveFile(backup);
      }
      return true;
    }

    /** Syncing puts the written bytes under the temporary name; failing, it may leave anything there. */
    method Sync(disk: Storage, output: Output) returns (ok: bool)
      requires disk.Valid()
      modifies disk
      ensures disk.Valid() && SameExcept(disk.files, old(disk.files), Name(storeFilePath, Temporary))
      ensures disk.faults >= old(disk.faults) && (!ok ==> disk.faults > old(disk.faults))
      ensures ok ==> Name(storeFilePath, Temporary) in disk.files
                     && disk.files[Name(storeFilePath, Temporary)] == output.data
    {
      var temporary := Name(storeFilePath, Temporary);
      ok := disk.Attempt();
      var content := output.data;
      if !ok {
        content := *;
      }
      disk.files := disk.files[temporary := content];
      disk.history := disk.history + [Event(HalStorage.Write(temporary), disk.files)];
    }

    method OpenSource(disk: Storage) returns (ok: bool, source: Option<FsFile>)
      requires Name(storeFilePath, Canonical) !in disk.files ==> Name(storeFilePath, Backup) !in disk.files
      modifies disk`faults
      ensures disk.faults >= old(disk.faults) && (!ok ==> disk.faults > old(disk.faults))
      ensures ok ==>
                if source.Some?
                then fresh(source.value) && source.value.Valid() && Card(disk.files) == Some(source.value.data)
                else Card(disk.files) == None
    {
      source := None;
      if Name(storeFilePath, Canonical) in disk.files {
        var isOpen, file := disk.OpenFileForRead(Name(storeFilePath, Canonical));
        if !isOpen {
          return false, None;
        }
        source := Some(file);
      }
      ok := true;
    }

    method WriteAll(disk: Storage, output: Output, source: Option<FsFile>, r: Option<Replacement>,
                    ghost card: Option<bytes>)
      returns (ok: bool, kept: seq<Clipping>)
      requires HeaderFits() && |clippings| <= MAX_PER_BOOK && Available(card, clippings, r)
      requires if source.Some? then source.value.Valid() && card == Some(source.value.data) else card == None
      requires output.data == []
      modifies output, disk`faults, if source.Some? then {source.value} else {}
      ensures disk.faults >= old(disk.faults) && (!ok ==> disk.faults > old(disk.faults))
      ensures ok ==>
                Written(Header(|clippings|), output.data, AllIntended(card, clippings, r, |clippings|), kept)
    {
      kept := [];
      ok := WriteHeader(disk, output, |clippings|);
      if ok {
        ok, kept := WriteRecords(disk, output, source, r, card);
      }
    }

    /** Writes the new file under the temporary name, or drops it. */
    method WriteTemporary(disk: Storage, r: Option<Replacement>) returns (ok: bool, kept: seq<Clipping>)
      requires disk.Valid() && HeaderFits() && |clippings| <= MAX_PER_BOOK
      requires Available(Card(disk.files), clippings, r)
      requires Name(storeFilePath, Canonical) !in disk.files ==> Name(storeFilePath, Backup) !in disk.files
      modifies disk
      ensures disk.Valid() && SameExcept(disk.files, old(disk.files), Name(storeFilePath, Temporary))
      ensures disk.faults >= old(disk.faults) && (!ok ==> disk.faults > old(disk.faults))
      ensures ok ==>
                && Name(storeFilePath, Temporary) in disk.files
                && Written(Header(|clippings|), disk.files[Name(storeFilePath, Temporary)],
                           AllIntended(Card(old(disk.files)), clippings, r, |clippings|), kept)
    {
      ghost var card := Card(disk.files);
      kept := [];
      var temporary := Name(storeFilePath, Temporary);
      var source;
      ok, source := OpenSource(disk);
      if !ok {
        return;
      }
      ok := disk.OpenFileForWrite(temporary);
      if !ok {
        return;
      }
      var output := new Output();
      ok, kept := WriteAll(disk, output, source, r, card);
      if ok {
        ok := Sync(disk, output);
      }
      if !ok {
        var _ := disk.RemoveFile(temporary);
      }
    }

    /** The card refuses to rename onto an existing file. */
    method Rename(disk: Storage, from: Name, to: Name) returns (ok: bool)
      requires disk.Valid() && from in disk.files
      modifies disk
      ensures disk.Valid()
      ensures ok ==> to !in old(disk.files) && disk.files == old(disk.files)[to := old(disk.files)[from]] - {from}
      ensures !ok ==> disk.files == old(disk.files) && (to in disk.files || disk.faults > old(disk.faults))
      ensures disk.faults >= old(disk.faults)
    {
      if to in disk.files {
        return false;
      }
      ok := disk.RenameFile(from, to);
    }

    /** Puts the temporary file in the place of the store file, which becomes the backup on the way. */
    method SwapIn(disk: Storage) returns (ok: bool)
      requires disk.Valid() && Name(storeFilePath, Temporary) in disk.files
      requires Name(storeFilePath, Canonical) !in disk.files ==> Name(storeFilePath, Backup) !in disk.files
      modifies disk
      ensures disk.Valid() && SameElsewhere(disk.files, old(disk.files), storeFilePath)
      ensures Card(disk.files)
           == if ok then Some(old(disk.files)[Name(storeFilePath, Temporary)]) else Card(old(disk.files))
      ensures ok ==> Name(storeFilePath, Canonical) in disk.files
      ensures !ok ==> disk.faults > old(disk.faults) || Name(storeFilePath, Backup) in old(disk.files)
      ensures disk.faults >= old(disk.faults)
    {
      var store, temporary, backup :=
        Name(storeFilePath, Canonical), Name(storeFilePath, Temporary), Name(storeFilePath, Backup);
      var hasSource := store in disk.files;
      if hasSource {
        ok := Rename(disk, store, backup);
        if !ok {
          var _ := disk.RemoveFile(temporary);
          return false;
        }
      }
      ok := Rename(disk, temporary, store);
      if !ok {
        var _ := disk.RemoveFile(temporary);
        if hasSource {
          var _ := Rename(disk, backup, store);
        }
        return false;
      }
      if hasSource && backup in disk.files {
        var _ := disk.RemoveFile(backup);
      }
      return true;
    }

    /** What a reader of the card and a user of the memory see. */
    ghost function Shown(files: Files): seq<Excerpt>
      requires Valid(files)
      reads this
    {
      ShownBy(Card(files), clippings)
    }

    /** Rewrites the store. Success leaves a file that reads back as exactly the clippings in memory,
        each with the text it had, or the one given for it cut to 512 bytes. Failure leaves memory and
        card as they were, so every old offset stays good. */
    method WriteToFile(disk: Storage, r: Option<Replacement>) returns (ok: bool)
      requires disk.Valid() && storeFilePath.OtherStore? && HeaderFits() && |clippings| <= MAX_PER_BOOK
      requires Available(Card(disk.files), clippings, r)
      modifies disk, this`clippings
      ensures disk.Valid() && SameElsewhere(disk.files, old(disk.files), storeFilePath)
      ensures !ok ==>
                clippings == old(clippings) && Card(disk.files) == Card(old(disk.files)) && disk.faults > old(disk.faults)
      ensures ok ==>
                && Valid(disk.files) && Card(disk.files).Some? && Name(storeFilePath, Canonical) in disk.files
                && DecodeFile(Card(disk.files).value) == Some(clippings)
                && Shown(disk.files) == old(AllIntended(Card(disk.files), clippings, r, |clippings|))
    {
      ghost var es := AllIntended(Card(disk.files), clippings, r, |clippings|);
      ghost var header := Header(|clippings|);
      ok := TidyUp(disk);
      if !ok {
        return;
      }
      var kept;
      ok, kept := WriteTemporary(disk, r);
      if !ok {
        return;
      }
      ghost var data := disk.files[Name(storeFilePath, Temporary)];
      ok := SwapIn(disk);
      if !ok {
        return;
      }
      WrittenReads(data, bookTitle, bookAuthor, bookFilePath, es, kept);
      clippings := kept;
    }

    // -------------------------------------------------------------- reading

    /** One record: its fields, then its text, which is skipped. */
    method ReadClipping(file: FsFile, v: Version) returns (r: Option<Clipping>)
      requires file.Valid()
      modifies file
      ensures file.Valid()
      ensures r.None? ==> ClippingAt(file.data, old(file.position), v) == None
      ensures r.Some? ==> ClippingAt(file.data, old(file.position), v) == Some((r.value, file.position))
    {
      ghost var start := file.position;
      var chunk := file.Read(FieldsSize(v));
      if |chunk| != FieldsSize(v) {
        return None;
      }
      FieldsOfChunk(file.data, start, v, chunk);
      var size := file.Read(if v == LEGACY_VERSION then 4 else 2);
      if |size| != (if v == LEGACY_VERSION then 4 else 2) {
        return None;
      }
      var length: nat := if v == LEGACY_VERSION then DecodeU32(size) else DecodeU16(size);
      if v != LEGACY_VERSION && length > TEXT_MAX {
        return None;
      }
      var offset := Cast32(file.position);
      if length > |file.data| - file.position {
        return None;
      }
      file.position := file.position + length;
      return Some(Clipping(FieldsAt(chunk, 0, v), offset, if length < TEXT_MAX then length else TEXT_MAX));
    }

    method ReadText(file: FsFile) returns (ok: bool)
      requires file.Valid()
      modifies file
      ensures file.Valid()
      ensures match SkipText(file.data, old(file.position))
              case None => !ok
              case Some(next) => ok && file.position == next
    {
      var size := file.Read(4);
      if |size| != 4 || DecodeU32(size) > INT_MAX {
        return false;
      }
      var s := file.Read(DecodeU32(size));
      return |s| == DecodeU32(size);
    }

    /** Version, count and the three strings of the header. */
    method ReadHeader(file: FsFile) returns (r: Option<(Version, nat)>)
      requires file.Valid() && file.position == 0
      modifies file
      ensures file.Valid()
      ensures r.Some? ==>
                && Has(file.data, 0, 3) && r == Some((file.data[0], U16At(file.data, 1)))
                && RecordsStart(file.data) == Some(file.position)
      ensures r.None? ==>
                !Has(file.data, 0, 3) || !(LEGACY_VERSION <= file.data[0] <= VERSION) || RecordsStart(file.data) == None
    {
      var version := file.Read(1);
      if |version| != 1 || !(LEGACY_VERSION <= version[0] <= VERSION) {
        return None;
      }
      var count := file.Read(2);
      if |count| != 2 {
        return None;
      }
      var ok := ReadText(file);
      if ok { ok := ReadText(file); }
      if ok { ok := ReadText(file); }
      if !ok {
        return None;
      }
      return Some((version[0], DecodeU16(count)));
    }

    /** `readFromFile` into the memory of the store. Failure leaves what was read of it; its callers
        report it and drop the store. */
    method ReadFromFile(disk: Storage) returns (ok: bool)
      requires storeFilePath.OtherStore?
      modifies disk`faults, this`clippings
      ensures ok ==>
                && Name(storeFilePath, Canonical) in disk.files
                && DecodeFile(disk.files[Name(storeFilePath, Canonical)]) == Some(clippings)
      ensures !ok ==>
                || disk.faults > old(disk.faults) || Name(storeFilePath, Canonical) !in disk.files
                || DecodeFile(disk.files[Name(storeFilePath, Canonical)]) == None
      ensures ok && |disk.files[Name(storeFilePath, Canonical)]| < 0x1_0000_0000 && HeaderFits() ==> Valid(disk.files)
    {
      clippings := [];
      var isOpen, file := disk.OpenFileForRead(Name(storeFilePath, Canonical));
      if !isOpen {
        return false;
      }
      var header := ReadHeader(file);
      if header.None? || header.value.1 > MAX_PER_BOOK {
        return false;
      }
      ghost var start := file.position;
      ok := ReadRecords(file, header.value.0, header.value.1);
      if ok && |file.data| < 0x1_0000_0000 { ReadTextsInside(file.data, start, header.value.0, header.value.1); }
    }

    method ReadNext(file: FsFile, v: Version, ghost loaded: seq<Clipping>, ghost left: nat)
      returns (c: Option<Clipping>)
      requires file.Valid() && left > 0
      modifies file
      ensures file.Valid()
      ensures AfterReading(file.data, old(file.position), v, loaded, left)
           == if c.None? then None else AfterReading(file.data, file.position, v, loaded + [c.value], left - 1)
    {
      ghost var here := file.position;
      c := ReadClipping(file, v);
      if c.Some? { RecordRead(file.data, here, v, loaded, left, c.value, file.position); }
    }

    method ReadRecords(file: FsFile, v: Version, count: nat) returns (ok: bool)
      requires file.Valid() && clippings == []
      modifies file, this`clippings
      ensures ok ==> ClippingsAt(file.data, old(file.position), v, count) == Some(clippings)
      ensures !ok ==> ClippingsAt(file.data, old(file.position), v, count) == None
    {
      ghost var whole := ClippingsAt(file.data, file.position, v, count);
      NothingRead(file.data, file.position, v, count);
      var i := 0;
      while i < count
        invariant 0 <= i <= count && file.Valid()
        invariant whole == AfterReading(file.data, file.position, v, clippings, count - i)
      {
        var c := ReadNext(file, v, clippings, count - i);
        if c.None? {
          return false;
        }
        clippings := clippings + [c.value];
        i := i + 1;
      }
      AllRead(file.data, file.position, v, clippings);
      return true;
    }

    /** Reads the text of a clipping from the card. An answer is always the clipping's own text. */
    method ReadClippingText(disk: Storage, c: Clipping) returns (ok: bool, text: bytes)
      requires Valid(disk.files) && c in clippings
      modifies disk`faults
      ensures !ok ==> disk.faults > old(disk.faults) || Name(storeFilePath, Canonical) !in disk.files
      ensures ok ==>
                text == if Card(disk.files).Some? then TextAt(Card(disk.files).value, c) else []
    {
      if c.textLength == 0 {
        return true, [];
      }
      var isOpen, file := disk.OpenFileForRead(Name(storeFilePath, Canonical));
      if !isOpen {
        return false, [];
      }
      ok := Seek(disk, file, c.textOffset);
      if !ok {
        return false, [];
      }
      text := file.Read(c.textLength);
      if |text| != c.textLength {
        return false, [];
      }
      return true, text;
    }

    // -------------------------------------------------------------- changes

    /** Adds a clipping, stamped with the clock, with its text cut to 512 bytes. */
    method AddClipping(disk: Storage, request: Request, text: bytes, millis: u32) returns (result: AddResult)
      requires disk.Valid() && Valid(disk.files)
      modifies disk, this`clippings, this`dirty
      ensures disk.Valid() && Valid(disk.files) && SameElsewhere(disk.files, old(disk.files), storeFilePath)
      ensures result == LimitReached <==> |old(clippings)| >= MAX_PER_BOOK
      ensures result == Added ==>
                && Shown(disk.files) == old(Shown(disk.files)) + [Excerpt(request.AsFields(millis), Cut(text))]
                && Card(disk.files).Some? && DecodeFile(Card(disk.files).value) == Some(clippings) && !dirty
      ensures result != Added ==> clippings == old(clippings) && Shown(disk.files) == old(Shown(disk.files))
      ensures result == SaveFailed ==> disk.faults > old(disk.faults) && dirty
    {
      if |clippings| >= MAX_PER_BOOK {
        return LimitReached;
      }
      ghost var before, card := clippings, Card(disk.files);
      var r := Replacement(|clippings|, text);
      clippings := clippings + [Clipping(request.AsFields(millis), 0, |Cut(text)|)];
      dirty := true;
      AddedIsAvailable(card, before, clippings, r);
      var ok := WriteToFile(disk, Some(r));
      if !ok {
        clippings := clippings[..|clippings| - 1];
        dirty := true;
        return SaveFailed;
      }
      dirty := false;
      return Added;
    }

    /** Removes the clipping at the index; the others keep their texts. */
    method RemoveClippingAt(disk: Storage, index: nat) returns (ok: bool)
      requires disk.Valid() && Valid(disk.files)
      modifies disk, this`clippings, this`dirty
      ensures disk.Valid() && Valid(disk.files) && SameElsewhere(disk.files, old(disk.files), storeFilePath)
      ensures ok ==>
                && index < |old(clippings)|
                && Shown(disk.files) == old(Shown(disk.files))[..index] + old(Shown(disk.files))[index + 1..]
                && Card(disk.files).Some? && DecodeFile(Card(disk.files).value) == Some(clippings) && !dirty
      ensures !ok ==> clippings == old(clippings) && Shown(disk.files) == old(Shown(disk.files))
      ensures !ok ==> index >= |clippings| || (disk.faults > old(disk.faults) && dirty)
    {
      if index >= |clippings| {
        return false;
      }
      ghost var before, card := clippings, Card(disk.files);
      var clipping := clippings[index];
      clippings := clippings[..index] + clippings[index + 1..];
      dirty := true;
      RemovedIsAvailable(card, before, clippings, index);
      ok := WriteToFile(disk, None);
      if !ok {
        clippings := clippings[..index] + [clipping] + clippings[index..];
        assert clippings == before;
        return false;
      }
      dirty := false;
    }

    method StampAll(signature: u32) returns (changed: bool)
      modifies this`clippings
      ensures clippings == StampedList(old(clippings), signature)
      ensures !changed ==> clippings == old(clippings)
    {
      var i := 0;
      changed := false;
      while i < |clippings|
        invariant 0 <= i <= |clippings| == |old(clippings)|
        invariant forall k | 0 <= k < i :: clippings[k] == StampedList(old(clippings), signature)[k]
        invariant forall k | i <= k < |clippings| :: clippings[k] == old(clippings)[k]
        invariant !changed ==> clippings == old(clippings)
      {
        if clippings[i].fields.layoutSignature == 0 {
          clippings := clippings[i := clippings[i].(fields := clippings[i].fields.(layoutSignature := signature))];
          changed := true;
        }
        i := i + 1;
      }
    }

    /** Stamps the layout of the clippings that have none; every text stays. */
    method StampMissingLayoutSignature(disk: Storage, signature: u32) returns (ok: bool)
      requires disk.Valid() && Valid(disk.files)
      modifies disk, this`clippings, this`dirty
      ensures disk.Valid() && Valid(disk.files) && SameElsewhere(disk.files, old(disk.files), storeFilePath)
      ensures Shown(disk.files) == AllStamped(old(Shown(disk.files)), signature)
      ensures !ok ==> disk.faults > old(disk.faults) && dirty
    {
      StampedShows(Card(disk.files), clippings, signature);
      if signature == 0 {
        return true;
      }
      var changed := StampAll(signature);
      if !changed {
        return true;
      }
      dirty := true;
      ok := WriteToFile(disk, None);
      if ok {
        dirty := false;
      }
    }
  }

  /** The arguments of an add. A book has at least one page; a missing title counts as empty. */
  datatype Request = Request(
    spineIndex: u16, startPage: u16, endPage: u16, pageCount: u16, startWord: u16, endWord: u16, wordCount: u16,
    chapterTitle: Option<CString>, paragraph: u16, layoutSignature: u32)
  {
    function AsFields(millis: u32): Fields {
      Fields(spineIndex, startPage, endPage, if pageCount == 0 then 1 else pageCount, startWord, endWord, wordCount,
             paragraph, millis / 1000, layoutSignature,
             FixedText(if chapterTitle.Some? then chapterTitle.value else [], CHAPTER_TITLE_MAX))
    }
  }

  datatype AddResult = Added | LimitReached | SaveFailed

  /** What the memory stands for with this on the card. */
  ghost predicate Held(card: Option<bytes>, list: seq<Clipping>) {
    match card
    case Some(data) => Resident(data, list)
    case None => forall i | 0 <= i < |list| :: list[i].textLength == 0
  }

  ghost function ShownBy(card: Option<bytes>, list: seq<Clipping>): seq<Excerpt>
    requires Held(card, list)
  {
    match card
    case Some(data) => Meaning(data, list)
    case None => seq(|list|, i requires 0 <= i < |list| => Excerpt(list[i].fields, []))
  }

  lemma ShownAt(card: Option<bytes>, list: seq<Clipping>, i: nat)
    requires Held(card, list) && i < |list|
    ensures ShownBy(card, list)[i] == Intended(card, list, None, i)
  {
  }

  lemma AddedIsAvailable(card: Option<bytes>, before: seq<Clipping>, after: seq<Clipping>, r: Replacement)
    requires Held(card, before) && r.index == |before|
    requires |after| == |before| + 1 && after[..|before|] == before
    ensures Available(card, after, Some(r))
    ensures AllIntended(card, after, Some(r), |after|)
         == ShownBy(card, before) + [Excerpt(after[|before|].fields, Cut(r.text))]
  {
    assert forall i | 0 <= i < |before| :: after[i] == after[..|before|][i] == before[i];
    forall i | 0 <= i < |before| ensures Intended(card, after, Some(r), i) == ShownBy(card, before)[i] {
      ShownAt(card, before, i);
    }
  }

  lemma RemovedIsAvailable(card: Option<bytes>, before: seq<Clipping>, after: seq<Clipping>, index: nat)
    requires Held(card, before) && index < |before| && after == before[..index] + before[index + 1..]
    ensures Available(card, after, None)
    ensures AllIntended(card, after, None, |after|) == ShownBy(card, before)[..index] + ShownBy(card, before)[index + 1..]
  {
    forall i | 0 <= i < |after|
      ensures Intended(card, after, None, i) == ShownBy(card, before)[if i < index then i else i + 1]
    {
      ShownAt(card, before, if i < index then i else i + 1);
    }
  }

  function Stamped(f: Fields, signature: u32): Fields {
    if f.layoutSignature == 0 then f.(layoutSignature := signature) else f
  }

  function StampedList(list: seq<Clipping>, signature: u32): seq<Clipping> {
    seq(|list|, i requires 0 <= i < |list| => list[i].(fields := Stamped(list[i].fields, signature)))
  }

  function AllStamped(es: seq<Excerpt>, signature: u32): seq<Excerpt> {
    seq(|es|, i requires 0 <= i < |es| => es[i].(fields := Stamped(es[i].fields, signature)))
  }

  lemma StampedShows(card: Option<bytes>, list: seq<Clipping>, signature: u32)
    requires Held(card, list)
    ensures Held(card, StampedList(list, signature)) && Available(card, StampedList(list, signature), None)
    ensures ShownBy(card, StampedList(list, signature)) == AllStamped(ShownBy(card, list), signature)
    ensures AllIntended(card, StampedList(list, signature), None, |list|) == AllStamped(ShownBy(card, list), signature)
    ensures signature == 0 ==> AllStamped(ShownBy(card, list), signature) == ShownBy(card, list)
  {
    forall i | 0 <= i < |list|
      ensures Intended(card, StampedList(list, signature), None, i) == AllStamped(ShownBy(card, list), signature)[i]
      ensures ShownBy(card, StampedList(list, signature))[i] == AllStamped(ShownBy(card, list), signature)[i]
    {
      ShownAt(card, list, i);
      ShownAt(card, StampedList(list, signature), i);
    }
  }

  /** What reading gives once `loaded` has been read and `left` records remain. */
  ghost function AfterReading(data: bytes, at: nat, v: Version, loaded: seq<Clipping>, left: nat): Option<seq<Clipping>> {
    match ClippingsAt(data, at, v, left) case None => None case Some(rest) => Some(loaded + rest)
  }

  lemma NothingRead(data: bytes, start: nat, v: Version, count: nat)
    ensures AfterReading(data, start, v, [], count) == ClippingsAt(data, start, v, count)
  {
    match ClippingsAt(data, start, v, count)
    case None =>
    case Some(rest) => assert [] + rest == rest;
  }

  lemma AllRead(data: bytes, at: nat, v: Version, loaded: seq<Clipping>)
    ensures AfterReading(data, at, v, loaded, 0) == Some(loaded)
  {
    assert loaded + [] == loaded;
  }

  lemma RecordRead(data: bytes, at: nat, v: Version, loaded: seq<Clipping>, left: nat, c: Clipping, next: nat)
    requires left > 0 && ClippingAt(data, at, v) == Some((c, next))
    ensures AfterReading(data, at, v, loaded, left) == AfterReading(data, next, v, loaded + [c], left - 1)
  {
    match ClippingsAt(data, next, v, left - 1)
    case None =>
    case Some(rest) =>
      FirstRead(data, at, v, left, c, next, rest);
      assert loaded + ([c] + rest) == loaded + [c] + rest;
  }

  lemma FieldsOfChunk(data: bytes, pos: nat, v: Version, chunk: bytes)
    requires Has(data, pos, FieldsSize(v)) && chunk == data[pos..pos + FieldsSize(v)]
    ensures FieldsAt(chunk, 0, v) == FieldsAt(data, pos, v)
  {
    WordsOfChunk(data, pos, pos + FieldsSize(v), 0);
    WordsOfChunk(data, pos, pos + FieldsSize(v), 8);
    SliceOfSlice(data, pos, pos + FieldsSize(v), 16, 20);
    if v >= VERSION { SliceOfSlice(data, pos, pos + FieldsSize(v), 20, 24); }
    SliceOfSlice(data, pos, pos + FieldsSize(v), 20 + SignatureSize(v), FieldsSize(v));
  }

  lemma WordsOfChunk(data: bytes, pos: nat, end: nat, at: nat)
    requires pos + at + 8 <= end <= |data|
    ensures var chunk := data[pos..end];
            && U16At(chunk, at) == U16At(data, pos + at) && U16At(chunk, at + 2) == U16At(data, pos + at + 2)
            && U16At(chunk, at + 4) == U16At(data, pos + at + 4) && U16At(chunk, at + 6) == U16At(data, pos + at + 6)
  {
    SliceOfSlice(data, pos, end, at, at + 2);
    SliceOfSlice(data, pos, end, at + 2, at + 4);
    SliceOfSlice(data, pos, end, at + 4, at + 6);
    SliceOfSlice(data, pos, end, at + 6, at + 8);
  }

  /** A header, then the records one after the other; `kept` are their clippings. */
  ghost predicate Written(header: bytes, data: bytes, es: seq<Excerpt>, kept: seq<Clipping>)
    requires AllBounded(es)
  {
    && At(data, 0, header) && Stand(data, |header|, es) && EndOf(es, |header|) == |data|
    && kept == Placed(es, |header|) && |data| <= |header| + |es| * (HEAD_SIZE + TEXT_MAX)
  }

  lemma WrittenReads(data: bytes, title: Text, author: Text, path: Text, es: seq<Excerpt>, kept: seq<Clipping>)
    requires AllBounded(es) && |es| <= MAX_PER_BOOK && |title| + |author| + |path| <= INT_MAX
    requires Written(EncodeHeader(|es|, title, author, path), data, es, kept)
    ensures |data| < 0x1_0000_0000 && |kept| == |es|
    ensures DecodeFile(data) == Some(kept) && Resident(data, kept) && Meaning(data, kept) == es
  {
    FileReads(data, title, author, path, es);
  }

  lemma WrittenNext(header: bytes, data: bytes, es: seq<Excerpt>, kept: seq<Clipping>, e: Excerpt, c: Clipping)
    requires AllBounded(es) && Bounded(e) && Written(header, data, es, kept)
    requires |data| + HEAD_SIZE < 0x1_0000_0000
    requires c == Clipping(e.fields, |data| + HEAD_SIZE, |e.text|)
    ensures Written(header, data + EncodeExcerpt(e), es + [e], kept + [c])
  {
    StandAppend(data, |header|, es, e);
    AtGrows(data, 0, header, EncodeExcerpt(e));
  }
}

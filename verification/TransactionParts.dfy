/** What a store transaction is made of: the list it stands for, the byte pieces it writes and
    compares, and the deletion of a single file. */
module TransactionParts {
  import opened Bytes
  import opened Wrappers
  import opened Bookmarks
  import opened BookmarkCodec
  import opened HalStorage

  // The largest size_t of the 32-bit target: the index that removes nothing.
  const NO_INDEX: nat := 0xFFFF_FFFF

  // ---------------------------------------------------------------- the list a transaction records

  ghost function WithoutIndex(bookmarks: seq<Bookmark>, removeIndex: nat): seq<Bookmark> {
    if removeIndex < |bookmarks| then bookmarks[..removeIndex] + bookmarks[removeIndex + 1..] else bookmarks
  }

  /** The list a transaction stands for, without building it. */
  ghost function Logical(bookmarks: seq<Bookmark>, appended: Option<Bookmark>, removeIndex: nat, clear: bool)
    : seq<Bookmark>
  {
    if clear then []
    else WithoutIndex(bookmarks, removeIndex) + (if appended.Some? then [appended.value] else [])
  }

  method PdfBookmarkAt(bookmarks: seq<Bookmark>, appended: Option<Bookmark>, removeIndex: nat, logicalIndex: nat)
    returns (r: Option<Bookmark>)
    ensures var l := Logical(bookmarks, appended, removeIndex, false);
            r == if logicalIndex < |l| then Some(l[logicalIndex]) else None
  {
    var candidate := 0;
    var index := 0;
    while index < |bookmarks|
      invariant 0 <= index <= |bookmarks|
      invariant candidate == index - (if removeIndex < index then 1 else 0)
      invariant candidate <= logicalIndex
    {
      if index != removeIndex {
        if candidate == logicalIndex {
          return Some(bookmarks[index]);
        }
        candidate := candidate + 1;
      }
      index := index + 1;
    }
    return if appended.Some? && candidate == logicalIndex then appended else None;
  }

  method PdfBookmarkCount(bookmarks: seq<Bookmark>, appended: Option<Bookmark>, removeIndex: nat, clear: bool)
    returns (n: nat)
    ensures n == |Logical(bookmarks, appended, removeIndex, clear)|
  {
    if clear {
      return 0;
    }
    return |bookmarks| - (if removeIndex < |bookmarks| then 1 else 0) + (if appended.Some? then 1 else 0);
  }

  // ---------------------------------------------------------------- byte pieces in order

  ghost function Flatten(pieces: seq<bytes>): bytes {
    if pieces == [] then [] else pieces[0] + Flatten(pieces[1..])
  }

  function RecordPieces(b: Bookmark): seq<bytes> {
    [EncodeU16(b.spineIndex), EncodeU32(b.progress), EncodeU32(b.timestamp), b.chapterTitle,
     EncodeU16(b.paragraphIndex), b.snippet]
  }

  function HeaderPieces(title: Text, author: Text, path: Text, count: u16): seq<bytes> {
    [[VERSION], EncodeU16(count), EncodeU32(|title|), title, EncodeU32(|author|), author, EncodeU32(|path|), path]
  }

  lemma FlattenSix(a: bytes, b: bytes, c: bytes, d: bytes, e: bytes, f: bytes)
    ensures Flatten([a, b, c, d, e, f]) == a + b + c + d + e + f
  {
    assert [f][1..] == [] && [e, f][1..] == [f] && [d, e, f][1..] == [e, f] && [c, d, e, f][1..] == [d, e, f];
    assert [b, c, d, e, f][1..] == [c, d, e, f] && [a, b, c, d, e, f][1..] == [b, c, d, e, f];
    assert Flatten([f]) == f;
    assert Flatten([e, f]) == e + f;
    assert Flatten([d, e, f]) == d + e + f;
    assert Flatten([c, d, e, f]) == c + d + e + f;
    assert Flatten([b, c, d, e, f]) == b + c + d + e + f;
  }

  lemma RecordPiecesFlatten(b: Bookmark)
    ensures Flatten(RecordPieces(b)) == EncodeRecord(b, VERSION)
  {
    FlattenSix(EncodeU16(b.spineIndex), EncodeU32(b.progress), EncodeU32(b.timestamp), b.chapterTitle,
               EncodeU16(b.paragraphIndex), b.snippet);
  }

  lemma HeaderPiecesFlatten(title: Text, author: Text, path: Text, count: u16)
    requires count <= MAX_BOOKMARKS
    ensures Flatten(HeaderPieces(title, author, path, count)) == EncodeHeader(title, author, path, count, VERSION)
  {
    var h := HeaderPieces(title, author, path, count);
    assert h[2..] == [EncodeU32(|title|), title, EncodeU32(|author|), author, EncodeU32(|path|), path];
    FlattenSix(EncodeU32(|title|), title, EncodeU32(|author|), author, EncodeU32(|path|), path);
    assert h[1..][1..] == h[2..];
    assert Flatten(h) == [VERSION] + (EncodeU16(count) + Flatten(h[2..]));
  }

  /** One `tryWrite...` after the other, stopping at the first refusal. */
  method WritePieces(disk: Storage, name: Name, pieces: seq<bytes>) returns (wrote: bool)
    requires disk.Valid() && name in disk.files
    modifies disk
    ensures disk.Valid() && name in disk.files && disk.faults >= old(disk.faults)
    ensures OnlyTouched(old(disk.history), old(disk.files), disk.history, disk.files, name)
    ensures disk.faults == old(disk.faults) ==> wrote && disk.files[name] == old(disk.files[name]) + Flatten(pieces)
  {
    wrote := true;
    var i := 0;
    ghost var h0, f0 := disk.history, disk.files;
    while wrote && i < |pieces|
      invariant 0 <= i <= |pieces|
      invariant disk.Valid() && name in disk.files && disk.faults >= old(disk.faults)
      invariant OnlyTouched(h0, f0, disk.history, disk.files, name)
      invariant disk.faults == old(disk.faults) ==>
                  wrote && disk.files[name] + Flatten(pieces[i..]) == f0[name] + Flatten(pieces)
    {
      ghost var h, f := disk.history, disk.files;
      wrote := disk.WriteFile(name, pieces[i]);
      TouchedJoin(h0, f0, h, f, disk.history, disk.files, name);
      assert pieces[i..][1..] == pieces[i + 1..];
      assert f[name] + (pieces[i] + Flatten(pieces[i + 1..])) == f[name] + pieces[i] + Flatten(pieces[i + 1..]);
      i := i + 1;
    }
    if disk.faults == old(disk.faults) {
      assert pieces[i..] == [];
      assert disk.files[name] + [] == disk.files[name];
    }
  }

  lemma WholeFile(data: bytes, expected: bytes)
    ensures data == expected <==> At(data, 0, expected) && |expected| == |data|
  {
    assert data[0..|data|] == data;
  }

  /** One chunk further: what the rest of the comparison still has to find. */
  lemma NextChunk(data: bytes, start: nat, expected: bytes, offset: nat, n: nat)
    requires offset + n <= |expected|
    ensures At(data, start, expected[..offset + n])
       <==> At(data, start, expected[..offset])
            && At(data, start + offset, expected[offset..offset + n])
    ensures At(data, start, expected) ==> At(data, start, expected[..offset + n])
  {
    var done, chunk, rest := expected[..offset], expected[offset..offset + n], expected[offset + n..];
    assert expected[..offset + n] == done + chunk && expected == expected[..offset + n] + rest;
    AtParts(data, start, done, chunk);
    AtParts(data, start, expected[..offset + n], rest);
  }

  /** Compares in chunks of 64 bytes and stops at the first difference. */
  method ReadExpectedBytes(file: FsFile, expected: bytes) returns (matches: bool)
    requires file.Valid()
    modifies file
    ensures file.Valid()
    ensures matches <==> At(file.data, old(file.position), expected)
    ensures matches ==> file.position == old(file.position) + |expected|
  {
    ghost var start := file.position;
    var offset := 0;
    while offset < |expected|
      invariant 0 <= offset <= |expected|
      invariant file.Valid() && file.position == start + offset
      invariant At(file.data, start, expected[..offset])
    {
      var n := if |expected| - offset < 64 then |expected| - offset else 64;
      NextChunk(file.data, start, expected, offset, n);
      var chunk := file.Read(n);
      if |chunk| != n || chunk != expected[offset..offset + n] {
        return false;
      }
      offset := offset + n;
    }
    assert expected[..offset] == expected;
    return true;
  }

  method ReadExpectedPieces(file: FsFile, pieces: seq<bytes>) returns (matches: bool)
    requires file.Valid()
    modifies file
    ensures file.Valid()
    ensures matches <==> At(file.data, old(file.position), Flatten(pieces))
    ensures matches ==> file.position == old(file.position) + |Flatten(pieces)|
  {
    var i := 0;
    while i < |pieces|
      invariant 0 <= i <= |pieces|
      invariant file.Valid()
      invariant file.position + |Flatten(pieces[i..])| == old(file.position) + |Flatten(pieces)|
      invariant At(file.data, old(file.position), Flatten(pieces))
           <==> At(file.data, file.position, Flatten(pieces[i..]))
    {
      assert pieces[i..][1..] == pieces[i + 1..];
      AtParts(file.data, file.position, pieces[i], Flatten(pieces[i + 1..]));
      var same := ReadExpectedBytes(file, pieces[i]);
      if !same {
        return false;
      }
      i := i + 1;
    }
    return true;
  }

  /** Deletes a file unless it is already gone. */
  method DeleteBookmarkStorePath(disk: Storage, name: Name) returns (ok: bool)
    requires disk.Valid()
    modifies disk
    ensures disk.Valid() && disk.faults >= old(disk.faults)
    ensures OnlyTouched(old(disk.history), old(disk.files), disk.history, disk.files, name)
    ensures ok ==> disk.files == old(disk.files) - {name}
    ensures !ok ==> disk.files == old(disk.files) && disk.faults > old(disk.faults)
  {
    if name !in disk.files {
      assert disk.files - {name} == disk.files;
      return true;
    }
    ok := disk.RemoveFile(name);
  }
}

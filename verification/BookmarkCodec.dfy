/** The bookmark file format: what the transaction writer lays down and what the reader makes of
    arbitrary bytes, for the four format versions the reader still accepts. */
module BookmarkCodec {
  import opened Bytes
  import opened Wrappers
  import opened Bookmarks

  const LEGACY_VERSION := 2
  const PARAGRAPH_ANCHOR_VERSION := 4
  const VERSION := 5

  type Version = v: int | LEGACY_VERSION <= v <= VERSION witness VERSION

  // Lengths are stored in 32 bits.
  type Text = s: bytes | |s| < 0x1_0000_0000

  /** A book path as the store receives it: a non-empty C string. */
  predicate IsBookPath(path: bytes) { path != [] && 0 !in path }

  type BookPath = s: Text | IsBookPath(s) witness [1]

  // ---------------------------------------------------------------- records

  function RecordSize(v: Version): nat {
    58 + (if v >= PARAGRAPH_ANCHOR_VERSION then 2 else 0) + (if v >= VERSION then SNIPPET_MAX else 0)
  }

  function EncodeRecord(b: Bookmark, v: Version): (e: bytes)
    ensures |e| == RecordSize(v)
  {
    EncodeU16(b.spineIndex) + EncodeU32(b.progress) + EncodeU32(b.timestamp) + b.chapterTitle
    + (if v >= PARAGRAPH_ANCHOR_VERSION then EncodeU16(b.paragraphIndex) else [])
    + (if v >= VERSION then b.snippet else [])
  }

  function DecodeRecord(r: bytes, v: Version): Bookmark
    requires |r| == RecordSize(v)
  {
    Bookmark(
      DecodeU16(r[..2]), DecodeU32(r[2..6]), DecodeU32(r[6..10]), Terminate(r[10..58]),
      if v >= PARAGRAPH_ANCHOR_VERSION then DecodeU16(r[58..60]) else NO_ID,
      if v >= VERSION then Terminate(r[60..124]) else Zeros(SNIPPET_MAX))
  }

  /** What survives a version's layout: the fields it does not store read back as defaults. */
  function AsStored(b: Bookmark, v: Version): Bookmark {
    b.(paragraphIndex := if v >= PARAGRAPH_ANCHOR_VERSION then b.paragraphIndex else NO_ID,
       snippet := if v >= VERSION then b.snippet else Zeros(SNIPPET_MAX))
  }

  function AllAsStored(list: seq<Bookmark>, v: Version): (r: seq<Bookmark>)
    ensures |r| == |list|
  {
    if list == [] then [] else [AsStored(list[0], v)] + AllAsStored(list[1..], v)
  }

  predicate Terminated(b: Bookmark) {
    b.chapterTitle[CHAPTER_TITLE_MAX - 1] == 0 && b.snippet[SNIPPET_MAX - 1] == 0
  }

  ghost predicate AllTerminated(list: seq<Bookmark>) {
    forall b :: b in list ==> Terminated(b)
  }

  lemma RecordRoundTrip(b: Bookmark, v: Version)
    requires Terminated(b)
    ensures DecodeRecord(EncodeRecord(b, v), v) == AsStored(b, v)
  {
    var r := EncodeRecord(b, v);
    assert r[..2] == EncodeU16(b.spineIndex);
    assert r[2..6] == EncodeU32(b.progress);
    assert r[6..10] == EncodeU32(b.timestamp);
    assert r[10..58] == b.chapterTitle;
    U16RoundTrip(b.spineIndex);
    U32RoundTrip(b.progress);
    U32RoundTrip(b.timestamp);
    assert Terminate(b.chapterTitle) == b.chapterTitle;
    if v >= PARAGRAPH_ANCHOR_VERSION {
      assert r[58..60] == EncodeU16(b.paragraphIndex);
      U16RoundTrip(b.paragraphIndex);
    }
    if v >= VERSION {
      var front := EncodeU16(b.spineIndex) + EncodeU32(b.progress) + EncodeU32(b.timestamp) + b.chapterTitle
        + EncodeU16(b.paragraphIndex);
      assert r == front + b.snippet && |front| == 60;
      assert r[60..] == b.snippet;
      assert r[60..124] == r[60..];
      assert Terminate(b.snippet) == b.snippet;
    }
  }

  function EncodeRecords(list: seq<Bookmark>, v: Version): bytes {
    if list == [] then [] else EncodeRecord(list[0], v) + EncodeRecords(list[1..], v)
  }

  /** `n` records from the front of `b`, with what follows them. */
  function ParseRecords(b: bytes, v: Version, n: nat): Option<(seq<Bookmark>, bytes)> {
    if n == 0 then Some(([], b))
    else if |b| < RecordSize(v) then None
    else
      match ParseRecords(b[RecordSize(v)..], v, n - 1)
      case None => None
      case Some((list, rest)) => Some(([DecodeRecord(b[..RecordSize(v)], v)] + list, rest))
  }

  lemma {:induction false} RecordsRoundTrip(list: seq<Bookmark>, v: Version, t: bytes)
    requires AllTerminated(list)
    ensures ParseRecords(EncodeRecords(list, v) + t, v, |list|) == Some((AllAsStored(list, v), t))
  {
    if list == [] {
      assert EncodeRecords(list, v) + t == t;
    } else {
      var r, rest := EncodeRecord(list[0], v), EncodeRecords(list[1..], v) + t;
      assert EncodeRecords(list, v) + t == r + rest;
      CutExtended(r, rest, |r|);
      RecordRoundTrip(list[0], v);
      RecordsRoundTrip(list[1..], v, t);
    }
  }

  lemma {:induction false} ParseRecordsFacts(b: bytes, v: Version, n: nat, t: bytes)
    requires ParseRecords(b, v, n).Some?
    ensures var (list, rest) := ParseRecords(b, v, n).value;
            && |list| == n && AllTerminated(list)
            && ParseRecords(b + t, v, n) == Some((list, rest + t))
  {
    if n > 0 {
      var size := RecordSize(v);
      CutExtended(b, t, size);
      ParseRecordsFacts(b[size..], v, n - 1, t);
      assert Terminated(DecodeRecord(b[..size], v));
    }
  }

  // ---------------------------------------------------------------- strings and files

  function ParseText(b: bytes): Option<(bytes, bytes)> {
    if |b| < 4 then None
    else
      var n := DecodeU32(b[..4]);
      if |b| - 4 < n then None else Some((b[4..4 + n], b[4 + n..]))
  }

  lemma TextRoundTrip(s: Text, t: bytes)
    ensures ParseText(EncodeText(s) + t) == Some((s, t))
  {
    var b := EncodeText(s) + t;
    assert b[..4] == EncodeU32(|s|);
    U32RoundTrip(|s|);
    assert b[4..4 + |s|] == s && b[4 + |s|..] == t;
  }

  lemma ParseTextExtends(b: bytes, t: bytes)
    requires ParseText(b).Some?
    ensures ParseText(b + t) == Some((ParseText(b).value.0, ParseText(b).value.1 + t))
  {
    assert (b + t)[..4] == b[..4];
    var n := DecodeU32(b[..4]);
    assert (b + t)[4..4 + n] == b[4..4 + n] && (b + t)[4 + n..] == b[4 + n..] + t;
  }

  function CountSize(v: Version): nat { if v == LEGACY_VERSION then 1 else 2 }

  function EncodeCount(n: nat, v: Version): (e: bytes)
    requires n <= (if v == LEGACY_VERSION then 255 else MAX_BOOKMARKS)
    ensures |e| == CountSize(v)
  {
    if v == LEGACY_VERSION then [n] else EncodeU16(n)
  }

  function DecodeCount(b: bytes, v: Version): nat
    requires |b| == CountSize(v)
  {
    if v == LEGACY_VERSION then b[0] else DecodeU16(b)
  }

  /** The largest list a version's count field can announce and the reader accept. */
  function MaxCount(v: Version): nat { if v == LEGACY_VERSION then 255 else MAX_BOOKMARKS }

  function EncodeHeader(title: Text, author: Text, path: Text, n: nat, v: Version): bytes
    requires n <= MaxCount(v)
  {
    [v] + (EncodeCount(n, v) + (EncodeText(title) + (EncodeText(author) + EncodeText(path))))
  }

  function EncodeFile(title: Text, author: Text, path: Text, list: seq<Bookmark>, v: Version): bytes
    requires |list| <= MaxCount(v)
  {
    EncodeHeader(title, author, path, |list|, v) + EncodeRecords(list, v)
  }

  datatype Parsed = Parsed(version: Version, list: seq<Bookmark>, rest: bytes)

  /** Title and author are read and dropped; the stored path is what matters. */
  function ParseStoredPath(b: bytes): Option<(bytes, bytes)> {
    match ParseText(b)
    case None => None
    case Some((_, b1)) =>
      match ParseText(b1)
      case None => None
      case Some((_, b2)) => ParseText(b2)
  }

  function ParseBody(b: bytes, path: bytes, v: Version): Option<Parsed> {
    if |b| < CountSize(v) then None
    else
      var n := DecodeCount(b[..CountSize(v)], v);
      if n > MAX_BOOKMARKS then None else ParseCounted(b[CountSize(v)..], path, v, n)
  }

  function ParseCounted(b: bytes, path: bytes, v: Version, n: nat): Option<Parsed> {
    match ParseStoredPath(b)
    case None => None
    case Some((stored, rest)) =>
      if stored != path then None
      else
        match ParseRecords(rest, v, n)
        case None => None
        case Some((list, rest')) => Some(Parsed(v, list, rest'))
  }

  function ParseFile(b: bytes, path: bytes): Option<Parsed> {
    if b == [] || !(LEGACY_VERSION <= b[0] <= VERSION) then None
    else ParseBody(b[1..], path, b[0])
  }

  datatype ReadResult = Rejected | Loaded(list: seq<Bookmark>, needsRewrite: bool)

  /** What reading the bytes as the store of `path` gives. Bytes after the last record are ignored. */
  function DecodeFile(b: bytes, path: bytes): ReadResult {
    match ParseFile(b, path)
    case None => Rejected
    case Some(p) => Loaded(p.list, p.version != VERSION)
  }

  lemma BodyParts(title: Text, author: Text, stored: Text, n: nat, v: Version, tail: bytes)
    requires n <= MaxCount(v)
    ensures var b := EncodeHeader(title, author, stored, n, v) + tail;
            var b0 := b[1..];
            && b[0] == v
            && |b0| >= CountSize(v) && DecodeCount(b0[..CountSize(v)], v) == n
            && b0[CountSize(v)..] == EncodeText(title) + (EncodeText(author) + (EncodeText(stored) + tail))
  {
    var b := EncodeHeader(title, author, stored, n, v) + tail;
    var texts := EncodeText(title) + (EncodeText(author) + (EncodeText(stored) + tail));
    assert b == [v] + (EncodeCount(n, v) + texts);
    assert b[1..] == EncodeCount(n, v) + texts;
    assert b[1..][..CountSize(v)] == EncodeCount(n, v);
    assert b[1..][CountSize(v)..] == texts;
    if v != LEGACY_VERSION { U16RoundTrip(n); }
  }

  lemma StoredPathRoundTrip(title: Text, author: Text, stored: Text, tail: bytes)
    ensures ParseStoredPath(EncodeText(title) + (EncodeText(author) + (EncodeText(stored) + tail)))
         == Some((stored, tail))
  {
    TextRoundTrip(title, EncodeText(author) + (EncodeText(stored) + tail));
    TextRoundTrip(author, EncodeText(stored) + tail);
    TextRoundTrip(stored, tail);
  }

  lemma ParseHeader(title: Text, author: Text, stored: Text, path: bytes, n: nat, v: Version, tail: bytes)
    requires n <= MaxCount(v)
    ensures ParseFile(EncodeHeader(title, author, stored, n, v) + tail, path)
         == if stored != path then None
            else match ParseRecords(tail, v, n)
                 case None => None
                 case Some((list, rest)) => Some(Parsed(v, list, rest))
  {
    BodyParts(title, author, stored, n, v, tail);
    StoredPathRoundTrip(title, author, stored, tail);
    var b := EncodeHeader(title, author, stored, n, v) + tail;
    assert ParseFile(b, path) == ParseBody(b[1..], path, v);
  }

  lemma ParseEncoded(title: Text, author: Text, stored: Text, path: bytes, list: seq<Bookmark>, v: Version, t: bytes)
    requires |list| <= MaxCount(v) && AllTerminated(list)
    ensures ParseFile(EncodeFile(title, author, stored, list, v) + t, path)
         == if stored == path then Some(Parsed(v, AllAsStored(list, v), t)) else None
  {
    var header, records := EncodeHeader(title, author, stored, |list|, v), EncodeRecords(list, v);
    assert EncodeFile(title, author, stored, list, v) + t == header + (records + t);
    ParseHeader(title, author, stored, path, |list|, v, records + t);
    RecordsRoundTrip(list, v, t);
  }

  /** Reading an encoded file gives its list, unstored fields at their defaults, and asks for a
      rewrite exactly for the old versions; under any other path it is rejected. */
  lemma FileRoundTrip(title: Text, author: Text, stored: Text, path: bytes, list: seq<Bookmark>, v: Version)
    requires |list| <= MaxCount(v) && AllTerminated(list)
    ensures DecodeFile(EncodeFile(title, author, stored, list, v), path)
         == if stored == path then Loaded(AllAsStored(list, v), v != VERSION) else Rejected
  {
    ParseEncoded(title, author, stored, path, list, v, []);
    var e := EncodeFile(title, author, stored, list, v);
    assert e + [] == e;
  }

  lemma {:induction false} CurrentVersionStoresAll(list: seq<Bookmark>)
    ensures AllAsStored(list, VERSION) == list
  {
    if list != [] { CurrentVersionStoresAll(list[1..]); }
  }

  lemma ParseStoredPathExtends(b: bytes, t: bytes)
    requires ParseStoredPath(b).Some?
    ensures ParseStoredPath(b + t) == Some((ParseStoredPath(b).value.0, ParseStoredPath(b).value.1 + t))
  {
    ParseTextExtends(b, t);
    var b1 := ParseText(b).value.1;
    ParseTextExtends(b1, t);
    ParseTextExtends(ParseText(b1).value.1, t);
  }

  lemma ParseBodyExtends(b: bytes, path: bytes, v: Version, t: bytes)
    requires ParseBody(b, path, v).Some?
    ensures var p := ParseBody(b, path, v).value;
            && ParseBody(b + t, path, v) == Some(Parsed(p.version, p.list, p.rest + t))
            && AllTerminated(p.list) && |p.list| <= MAX_BOOKMARKS
  {
    var size := CountSize(v);
    CutExtended(b, t, size);
    ParseCountedExtends(b[size..], path, v, DecodeCount(b[..size], v), t);
  }

  lemma ParseCountedExtends(b: bytes, path: bytes, v: Version, n: nat, t: bytes)
    requires ParseCounted(b, path, v, n).Some?
    ensures var p := ParseCounted(b, path, v, n).value;
            && ParseCounted(b + t, path, v, n) == Some(Parsed(p.version, p.list, p.rest + t))
            && AllTerminated(p.list) && |p.list| == n
  {
    ParseStoredPathExtends(b, t);
    ParseRecordsFacts(ParseStoredPath(b).value.1, v, n, t);
  }

  lemma ParseExtends(b: bytes, path: bytes, t: bytes)
    requires ParseFile(b, path).Some?
    ensures var p := ParseFile(b, path).value;
            && ParseFile(b + t, path) == Some(Parsed(p.version, p.list, p.rest + t))
            && AllTerminated(p.list) && |p.list| <= MAX_BOOKMARKS
  {
    CutExtended(b, t, 1);
    assert (b + t)[0] == b[0];
    ParseBodyExtends(b[1..], path, b[0], t);
  }

  /** Whatever was read, written back once, reads back as the same list and needs no more rewriting. */
  lemma RewriteIsFixedPoint(b: bytes, title: Text, author: Text, path: Text)
    requires DecodeFile(b, path).Loaded?
    ensures var list := DecodeFile(b, path).list;
            && AllTerminated(list) && |list| <= MAX_BOOKMARKS
            && DecodeFile(EncodeFile(title, author, path, list, VERSION), path) == Loaded(list, false)
  {
    ParseExtends(b, path, []);
    var list := DecodeFile(b, path).list;
    FileRoundTrip(title, author, path, path, list, VERSION);
    CurrentVersionStoresAll(list);
  }

  lemma CutAndJoined(e: bytes, n: nat)
    requires n <= |e|
    ensures e[..n] + e[n..] == e && e + [] == e
  {
  }

  /** Of all prefixes of an encoded file, only the whole file is accepted. */
  lemma TruncationRejected(title: Text, author: Text, path: Text, list: seq<Bookmark>, v: Version, n: nat)
    requires |list| <= MaxCount(v) && AllTerminated(list)
    requires n <= |EncodeFile(title, author, path, list, v)|
    ensures DecodeFile(EncodeFile(title, author, path, list, v)[..n], path).Loaded?
       <==> n == |EncodeFile(title, author, path, list, v)|
  {
    var e := EncodeFile(title, author, path, list, v);
    ParseEncoded(title, author, path, path, list, v, []);
    CutAndJoined(e, n);
    if n == |e| {
      assert e[..n] == e;
    } else if ParseFile(e[..n], path).Some? {
      ParseExtends(e[..n], path, e[n..]);
    }
  }
}

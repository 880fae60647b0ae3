/** The PDF fixture writer: objects, classic cross-reference table and trailer. The positions it
    promises are those of section 7.5.4 of ISO 32000-1. */
module ClassicPdf {
  import opened Bytes
  import opened Wrappers
  import Decimal

  /** A string of ASCII characters as bytes; no other character occurs in what is written. */
  function Ascii(s: string): (b: bytes)
    ensures |b| == |s|
    ensures forall i | 0 <= i < |s| && s[i] < 128 as char :: b[i] == s[i] as int
  {
    seq(|s|, i requires 0 <= i < |s| => if s[i] < 128 as char then s[i] as int else 0x3F)
  }

  function Text(b: bytes): string {
    seq(|b|, i requires 0 <= i < |b| => b[i] as char)
  }

  lemma TextOfAscii(s: string)
    requires forall c :: c in s ==> c < 128 as char
    ensures Text(Ascii(s)) == s
  {
    forall i | 0 <= i < |s| ensures Text(Ascii(s))[i] == s[i] {
      assert s[i] in s;
    }
  }

  // ---------------------------------------------------------------- pieces

  function ObjectHead(number: nat): bytes { Ascii(Decimal.Numeral(number) + " 0 obj\n") }

  function ObjectText(number: nat, body: bytes): bytes {
    ObjectHead(number) + body + Ascii("\nendobj\n")
  }

  /** `{n:010d}`: at least ten digits, padded with zeros. */
  function Padded(n: nat): string {
    var s := Decimal.Numeral(n);
    if |s| < 10 then seq(10 - |s|, _ => '0') + s else s
  }

  function InUseEntry(offset: nat): bytes { Ascii(Padded(offset) + " 00000 n \n") }

  const FREE_HEAD := "0000000000 65535 f \n"
  const FREE_ENTRY := "0000000000 00000 f \n"

  function Entry(offsets: map<nat, nat>, number: nat): bytes {
    if number == 0 then Ascii(FREE_HEAD)
    else if number in offsets then InUseEntry(offsets[number])
    else Ascii(FREE_ENTRY)
  }

  ghost function Rows(row: nat -> bytes, n: nat): bytes {
    if n == 0 then [] else Rows(row, n - 1) + row(n - 1)
  }

  ghost function RowOf(offsets: map<nat, nat>): nat -> bytes { (number: nat) => Entry(offsets, number) }

  ghost function Table(offsets: map<nat, nat>, n: nat): bytes { Rows(RowOf(offsets), n) }

  function TableHead(size: nat): bytes { Ascii("xref\n0 " + Decimal.Numeral(size) + "\n") }

  function Ending(start: nat): bytes { Ascii(" >>\nstartxref\n" + Decimal.Numeral(start) + "\n%%EOF\n") }

  // ---------------------------------------------------------------- reading a table back

  /** The entry of object `number` in a table that starts at `xref`: its offset if it is in use. */
  function LookUp(data: bytes, xref: nat, size: nat, number: nat): Option<nat> {
    var at := xref + |TableHead(size)| + 20 * number;
    if at + 20 > |data| || number >= size then None
    else
      var entry := Text(data[at..at + 20]);
      if entry[17] == 'n' then Some(Decimal.Value(entry[..10])) else None
  }

  lemma {:induction false} LeadingZeros(k: nat, s: string)
    requires forall c :: c in s ==> Decimal.IsDigit(c)
    ensures Decimal.Value(seq(k, _ => '0') + s) == Decimal.Value(s)
    decreases |s|, k
  {
    var zeros := seq(k, _ => '0');
    var t := zeros + s;
    if s == [] {
      if k > 0 {
        LeadingZeros(k - 1, []);
        assert t[..k - 1] == seq(k - 1, _ => '0') + [];
      } else {
        assert t == [];
      }
    } else {
      LeadingZeros(k, s[..|s| - 1]);
      assert t[..|t| - 1] == zeros + s[..|s| - 1];
    }
  }

  lemma PaddedReads(n: nat)
    ensures Decimal.Value(Padded(n)) == n
    ensures n < Decimal.Pow10(10) ==> |Padded(n)| == 10
    ensures forall c :: c in Padded(n) ==> Decimal.IsDigit(c)
  {
    Decimal.NumeralReads(n);
    var s := Decimal.Numeral(n);
    if |s| < 10 { LeadingZeros(10 - |s|, s); }
    if n < Decimal.Pow10(10) { Decimal.NumeralLength(n, 10); }
  }

  /** Every offset fits the ten digits of an entry. */
  ghost predicate TenDigits(offsets: map<nat, nat>) {
    forall k :: k in offsets ==> offsets[k] < Decimal.Pow10(10)
  }

  lemma EntrySize(offsets: map<nat, nat>, number: nat)
    requires TenDigits(offsets)
    ensures |Entry(offsets, number)| == 20
  {
    if number in offsets { PaddedReads(offsets[number]); }
  }

  lemma {:induction false} RowAt(row: nat -> bytes, n: nat, k: nat)
    requires k <= n && forall i: nat :: |row(i)| == 20
    ensures |Rows(row, n)| == 20 * n
    ensures k < n ==> At(Rows(row, n), 20 * k, row(k))
  {
    if n > 0 {
      RowAt(row, n - 1, if k < n then k else n - 1);
      AtEnd(Rows(row, n - 1), row(n - 1));
      if k < n - 1 {
        AtGrows(Rows(row, n - 1), 20 * k, row(k), row(n - 1));
      }
    }
  }

  lemma TableEntry(offsets: map<nat, nat>, n: nat, number: nat)
    requires TenDigits(offsets)
    requires number < n
    ensures |Table(offsets, n)| == 20 * n && At(Table(offsets, n), 20 * number, Entry(offsets, number))
  {
    forall i: nat ensures |Entry(offsets, i)| == 20 { EntrySize(offsets, i); }
    RowAt(RowOf(offsets), n, number);
  }

  /** What a reader finds in an entry. */
  lemma EntryReads(offsets: map<nat, nat>, number: nat)
    requires TenDigits(offsets)
    ensures var text := Text(Entry(offsets, number));
            && |text| == 20
            && (text[17] == 'n' <==> number > 0 && number in offsets)
            && (number > 0 && number in offsets ==> Decimal.Value(text[..10]) == offsets[number])
  {
    EntrySize(offsets, number);
    if number > 0 && number in offsets {
      var digits := Padded(offsets[number]);
      var full := digits + " 00000 n \n";
      PaddedReads(offsets[number]);
      TextOfAscii(full);
      assert full[..10] == digits && full[17] == " 00000 n \n"[7];
    }
  }

  /** The 20 bytes of a number that is not in use; number zero heads the free list. */
  function FreeEntry(number: nat): bytes { Ascii(if number == 0 then FREE_HEAD else FREE_ENTRY) }

  /** What a reader finds in entry `n` is the place of its object, or nothing in a free entry. */
  ghost predicate EntryHolds(data: bytes, objects: map<nat, bytes>, at: nat, n: nat, found: Option<nat>) {
    match found
    case Some(offset) => n > 0 && n in objects && At(data, offset, ObjectText(n, objects[n]))
    case None => (n == 0 || n !in objects) && At(data, at, FreeEntry(n))
  }

  /** As long as the table starts below 10^10, so that every offset takes ten digits. */
  ghost predicate TableHolds(data: bytes, objects: map<nat, bytes>, xref: nat, size: nat) {
    xref < Decimal.Pow10(10) ==>
      forall n: nat | n < size ::
        EntryHolds(data, objects, xref + |TableHead(size)| + 20 * n, n, LookUp(data, xref, size, n))
  }

  /** The layout `Render` promises: every object stands where its entry says, gaps and number zero
      have the free entry, and the file ends by naming the table. */
  ghost predicate WellFormed(data: bytes, objects: map<nat, bytes>, xref: nat, size: nat, start: nat) {
    && At(data, xref, TableHead(size))
    && (forall n :: n in objects ==> n < size)
    && TableHolds(data, objects, xref, size)
    && |data| >= |Ending(start)| && data[|data| - |Ending(start)|..] == Ending(start)
  }

  lemma LookUpFinds(data: bytes, xref: nat, size: nat, offsets: map<nat, nat>, n: nat)
    requires TenDigits(offsets)
    requires At(data, xref, TableHead(size) + Table(offsets, size)) && n < size
    ensures LookUp(data, xref, size, n) == if n > 0 && n in offsets then Some(offsets[n]) else None
  {
    EntryStands(data, xref, size, offsets, n);
    EntrySize(offsets, n);
    EntryReads(offsets, n);
    LookUpAt(data, xref, size, n, Entry(offsets, n));
  }

  lemma LookUpAt(data: bytes, xref: nat, size: nat, n: nat, entry: bytes)
    requires n < size && |entry| == 20 && At(data, xref + |TableHead(size)| + 20 * n, entry)
    ensures LookUp(data, xref, size, n)
         == if Text(entry)[17] == 'n' then Some(Decimal.Value(Text(entry)[..10])) else None
  {
  }

  lemma EntryStands(data: bytes, xref: nat, size: nat, offsets: map<nat, nat>, n: nat)
    requires TenDigits(offsets)
    requires At(data, xref, TableHead(size) + Table(offsets, size)) && n < size
    ensures At(data, xref + |TableHead(size)| + 20 * n, Entry(offsets, n))
  {
    forall i: nat ensures |RowOf(offsets)(i)| == 20 { EntrySize(offsets, i); }
    RowInFile(data, xref, TableHead(size), RowOf(offsets), size, n);
  }

  lemma RowInFile(data: bytes, xref: nat, head: bytes, row: nat -> bytes, size: nat, n: nat)
    requires n < size && forall i: nat :: |row(i)| == 20
    requires At(data, xref, head + Rows(row, size))
    ensures At(data, xref + |head| + 20 * n, row(n))
  {
    RowAt(row, size, n);
    RowStands(data, xref, head, Rows(row, size), 20 * n, row(n));
  }

  lemma RowStands(data: bytes, xref: nat, head: bytes, table: bytes, row: nat, entry: bytes)
    requires At(data, xref, head + table) && At(table, row, entry)
    ensures At(data, xref + |head| + row, entry)
  {
    assert At(head + table, |head|, table);
    AtInside(data, xref, head + table, |head|, table);
    AtInside(data, xref + |head|, table, row, entry);
  }

  // ---------------------------------------------------------------- the writer

  method Smallest(s: set<nat>) returns (m: nat)
    requires s != {}
    ensures m in s && forall x :: x in s ==> m <= x
  {
    m :| m in s;
    var rest := s - {m};
    while rest != {}
      invariant rest <= s && m in s
      invariant forall x :: x in s && x !in rest ==> m <= x
      decreases rest
    {
      var x :| x in rest;
      if x < m {
        m := x;
      }
      rest := rest - {x};
    }
  }

  /** `sorted(...)` of the object numbers. */
  method Sorted(keys: set<nat>) returns (order: seq<nat>)
    ensures forall i, j | 0 <= i < j < |order| :: order[i] < order[j]
    ensures forall n :: n in order <==> n in keys
  {
    order := [];
    var rest := keys;
    while rest != {}
      invariant rest <= keys && forall n :: n in keys <==> n in order || n in rest
      invariant forall i, n | 0 <= i < |order| && n in rest :: order[i] < n
      invariant forall i, j | 0 <= i < j < |order| :: order[i] < order[j]
      decreases rest
    {
      var m := Smallest(rest);
      order := order + [m];
      rest := rest - {m};
    }
  }

  class Pdf {
    var header: bytes
    var objects: map<nat, bytes>

    constructor (version: string)
      ensures objects == map[]
      ensures header == Ascii("%PDF-" + version + "\n") + [0x25, 0xE2, 0xE3, 0xCF, 0xD3, 0x0A]
    {
      header := Ascii("%PDF-" + version + "\n") + [0x25, 0xE2, 0xE3, 0xCF, 0xD3, 0x0A];
      objects := map[];
    }

    /** Refuses numbers that are not positive or already taken. */
    method Add(number: int, body: bytes) returns (ok: bool)
      modifies this`objects
      ensures ok <==> number > 0 && number !in old(objects)
      ensures objects == if ok then old(objects)[number as nat := body] else old(objects)
    {
      if number <= 0 || number in objects {
        return false;
      }
      objects := objects[number as nat := body];
      return true;
    }

    /** Lays the objects down in ascending order and notes where each starts. */
    method WriteObjects(order: seq<nat>) returns (output: bytes, offsets: map<nat, nat>)
      requires forall n :: n in order ==> n in objects
      requires forall i, j | 0 <= i < j < |order| :: order[i] < order[j]
      ensures header <= output
      ensures forall n :: n in offsets <==> n in order
      ensures forall n :: n in offsets ==> offsets[n] < |output| && At(output, offsets[n], ObjectText(n, objects[n]))
    {
      output, offsets := header, map[];
      for i := 0 to |order|
        invariant header <= output
        invariant forall n :: n in offsets <==> n in order[..i]
        invariant forall n :: n in offsets ==>
                    offsets[n] < |output| && At(output, offsets[n], ObjectText(n, objects[n]))
      {
        var number := order[i];
        var text := ObjectText(number, objects[number]);
        forall n | n in offsets ensures At(output + text, offsets[n], ObjectText(n, objects[n])) {
          AtGrows(output, offsets[n], ObjectText(n, objects[n]), text);
        }
        AtEnd(output, text);
        offsets := offsets[number := |output|];
        output := output + text;
        assert order[..i + 1] == order[..i] + [number];
      }
      assert order[..|order|] == order;
    }

    method WriteTable(output: bytes, offsets: map<nat, nat>, size: nat) returns (r: bytes)
      requires size > 0
      ensures r == output + (TableHead(size) + Table(offsets, size))
    {
      var rows := Ascii(FREE_HEAD);
      ghost var row := RowOf(offsets);
      assert Rows(row, 1) == Rows(row, 0) + row(0);
      for number := 1 to size
        invariant rows == Rows(row, number)
      {
        if number in offsets {
          rows := rows + InUseEntry(offsets[number]);
        } else {
          rows := rows + Ascii(FREE_ENTRY);
        }
      }
      assert rows == Table(offsets, size);
      r := output + (TableHead(size) + rows);
    }

    /** Objects, table and trailer; `xrefOffset` is where the table starts. */
    method Render(trailerEntries: nat -> bytes, startOverride: Option<nat>)
      returns (output: bytes, xrefOffset: nat, ghost size: nat)
      requires 0 !in objects
      ensures header <= output
      ensures size == 1 || (size > 0 && size - 1 in objects)
      ensures WellFormed(output, objects, xrefOffset, size,
                         if startOverride.Some? then startOverride.value else xrefOffset)
    {
      var order := Sorted(objects.Keys);
      var body, offsets := WriteObjects(order);
      xrefOffset := |body|;
      var count := TableLength(order);
      size := count;
      var start := if startOverride.Some? then startOverride.value else xrefOffset;
      output := WriteTrailer(body, offsets, count, trailerEntries(xrefOffset), start);
    }

    method WriteTrailer(body: bytes, offsets: map<nat, nat>, size: nat, entries: bytes, start: nat)
      returns (output: bytes)
      requires 0 !in objects && size > 0 && header <= body
      requires forall n :: n in offsets <==> n in objects
      requires forall n :: n in offsets ==>
                 n < size && offsets[n] < |body| && At(body, offsets[n], ObjectText(n, objects[n]))
      ensures header <= output && WellFormed(output, objects, |body|, size, start)
    {
      var table := WriteTable(body, offsets, size);
      var more := Ascii("trailer\n<< /Size " + Decimal.Numeral(size) + " ") + entries;
      output := table + (more + Ending(start));
      LayoutHolds(output, body, objects, offsets, size, more, start);
    }
  }

  /** `max(..., default=0) + 1` over the sorted numbers. */
  method TableLength(order: seq<nat>) returns (size: nat)
    requires forall i, j | 0 <= i < j < |order| :: order[i] < order[j]
    ensures size > 0 && forall n :: n in order ==> n < size
    ensures size == 1 || size - 1 in order
  {
    size := if order == [] then 1 else order[|order| - 1] + 1;
  }

  lemma LayoutHolds(full: bytes, body: bytes, objects: map<nat, bytes>, offsets: map<nat, nat>, size: nat,
                    more: bytes, start: nat)
    requires 0 !in objects && size > 0
    requires forall n :: n in offsets <==> n in objects
    requires forall n :: n in offsets ==> n < size && offsets[n] < |body| && At(body, offsets[n], ObjectText(n, objects[n]))
    requires full == body + (TableHead(size) + Table(offsets, size)) + (more + Ending(start))
    ensures WellFormed(full, objects, |body|, size, start)
  {
    var head, table, tail := TableHead(size), Table(offsets, size), more + Ending(start);
    PlacesHold(full, body, head, table, tail);
    EndingHolds(body + (head + table), more, Ending(start));
    AllEntriesHold(full, body, objects, offsets, size, (head + table) + tail);
  }

  lemma AllEntriesHold(full: bytes, body: bytes, objects: map<nat, bytes>, offsets: map<nat, nat>, size: nat,
                       rest: bytes)
    requires 0 !in objects
    requires forall k :: k in offsets <==> k in objects
    requires forall k :: k in offsets ==> offsets[k] < |body| && At(body, offsets[k], ObjectText(k, objects[k]))
    requires full == body + rest
    requires At(full, |body|, TableHead(size) + Table(offsets, size))
    ensures TableHolds(full, objects, |body|, size)
  {
    if |body| < Decimal.Pow10(10) {
      assert TenDigits(offsets);
      forall n: nat | n < size
        ensures EntryHolds(full, objects, |body| + |TableHead(size)| + 20 * n, n, LookUp(full, |body|, size, n))
      {
        LookUpFinds(full, |body|, size, offsets, n);
        if n in offsets {
          StillStands(full, body, rest, offsets[n], ObjectText(n, objects[n]));
        } else {
          GapStands(full, |body|, size, offsets, n);
        }
      }
    }
  }

  lemma StillStands(full: bytes, body: bytes, rest: bytes, at: nat, text: bytes)
    requires full == body + rest && At(body, at, text)
    ensures At(full, at, text)
  {
    AtGrows(body, at, text, rest);
  }

  lemma GapStands(full: bytes, xref: nat, size: nat, offsets: map<nat, nat>, n: nat)
    requires TenDigits(offsets)
    requires At(full, xref, TableHead(size) + Table(offsets, size)) && n < size
    requires n !in offsets
    ensures At(full, xref + |TableHead(size)| + 20 * n, FreeEntry(n))
  {
    EntryStands(full, xref, size, offsets, n);
    assert Entry(offsets, n) == FreeEntry(n);
  }

  lemma PlacesHold(full: bytes, body: bytes, head: bytes, table: bytes, tail: bytes)
    requires full == body + (head + table) + tail
    ensures full == body + ((head + table) + tail)
    ensures At(full, |body|, head + table) && At(full, |body|, head)
  {
    AtEnd(body, head + table);
    AtGrows(body + (head + table), |body|, head + table, tail);
    assert At(head + table, 0, head);
    AtInside(full, |body|, head + table, 0, head);
  }

  lemma EndingHolds(front: bytes, more: bytes, ending: bytes)
    ensures var full := front + (more + ending);
            |full| >= |ending| && full[|full| - |ending|..] == ending
  {
  }
}

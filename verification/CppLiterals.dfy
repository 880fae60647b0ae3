/** String literals of the generated C++ source: how a text is escaped and broken into lines, and what
    a compiler makes of them. */
module CppLiterals {
  import opened Bytes
  import opened Wrappers

  // ---------------------------------------------------------------- texts

  type Code = x: int | 0 <= x < 0x80

  /** The UTF-8 form of a character outside ASCII. */
  type WideBytes = s: bytes | s != [] && forall b :: b in s ==> b >= 0x80 witness [0x80]

  datatype Char = Ascii(code: Code) | Wide(utf8: WideBytes)

  type Text = seq<Char>

  function BytesOf(c: Char): (b: bytes)
    ensures b != []
  {
    match c
    case Ascii(code) => [code]
    case Wide(utf8) => utf8
  }

  function Utf8(s: Text): bytes {
    if s == [] then [] else BytesOf(s[0]) + Utf8(s[1..])
  }

  const BACKSLASH := Ascii(0x5C)
  const QUOTE := Ascii(0x22)
  const NEWLINE := Ascii(0x0A)
  const SPACE := Ascii(0x20)
  const LETTER_N := Ascii(0x6E)
  const LETTER_X := Ascii(0x78)
  const ZERO := Ascii(0x30)

  // ---------------------------------------------------------------- what the compiler reads

  /** The characters an escape of two characters may have after its backslash, with their values. */
  function SimpleEscape(c: Char): Option<byte> {
    if c == Ascii(0x6E) then Some(0x0A)
    else if c == Ascii(0x74) then Some(0x09)
    else if c == Ascii(0x72) then Some(0x0D)
    else if c == Ascii(0x22) then Some(0x22)
    else if c == Ascii(0x5C) then Some(0x5C)
    else None
  }

  function Digit(c: Char): Option<nat> {
    match c
    case Wide(_) => None
    case Ascii(x) =>
      if 0x30 <= x <= 0x39 then Some(x - 0x30)
      else if 0x41 <= x <= 0x46 then Some(x - 0x41 + 10)
      else if 0x61 <= x <= 0x66 then Some(x - 0x61 + 10)
      else None
  }

  /** The value and number of the digits that follow, at most `most` of them. */
  function ReadDigits(c: Text, radix: nat, most: nat, value: nat): (r: (nat, nat))
    ensures r.1 <= most && r.1 <= |c|
  {
    if c == [] || most == 0 || Digit(c[0]).None? || Digit(c[0]).value >= radix then (value, 0)
    else
      var (v, n) := ReadDigits(c[1..], radix, most - 1, value * radix + Digit(c[0]).value);
      (v, n + 1)
  }

  /** The first character or escape of a literal: its bytes and how many characters it takes. */
  function LexOne(c: Text): (r: Option<(bytes, nat)>)
    requires c != []
    ensures r.Some? ==> 1 <= r.value.1 <= |c|
  {
    if c[0].Wide? then Some((c[0].utf8, 1))
    else if c[0] == QUOTE || c[0] == NEWLINE then None
    else if c[0] != BACKSLASH then Some(([c[0].code], 1))
    else if |c| == 1 then None
    else if SimpleEscape(c[1]).Some? then Some(([SimpleEscape(c[1]).value], 2))
    else if c[1] == LETTER_X then Number(ReadDigits(c[2..], 16, |c| - 2, 0), 2)
    else Number(ReadDigits(c[1..], 8, 3, 0), 1)
  }

  /** A numeric escape: at least one digit, and a value that fits a byte. */
  function Number(read: (nat, nat), before: nat): (r: Option<(bytes, nat)>)
    ensures r.Some? ==> r.value.1 == before + read.1 && read.1 > 0
  {
    if read.1 == 0 || read.0 >= 0x100 then None else Some(([read.0], before + read.1))
  }

  function Cat(a: Option<bytes>, b: Option<bytes>): Option<bytes> {
    if a.Some? && b.Some? then Some(a.value + b.value) else None
  }

  /** The bytes of one literal, or None if it is not well formed. */
  function Lex(c: Text): Option<bytes> {
    if c == [] then Some([])
    else
      match LexOne(c)
      case None => None
      case Some((b, n)) => Cat(Some(b), Lex(c[n..]))
  }

  lemma OneToken(c: Text, b: bytes)
    requires c != [] && LexOne(c) == Some((b, |c|))
    ensures Lex(c) == Some(b)
  {
    assert c[|c|..] == [] && b + [] == b;
  }

  /** Adjacent literals are joined after each has been read. */
  function LexAll(lines: seq<Text>): Option<bytes> {
    if lines == [] then Some([]) else Cat(Lex(lines[0]), LexAll(lines[1..]))
  }

  // ---------------------------------------------------------------- joining

  /** Characters that are read one after the other whatever follows them. */
  predicate Closed(c: Text) {
    if c == [] then true
    else if c[0] == QUOTE || c[0] == NEWLINE then false
    else if c[0] == BACKSLASH then |c| >= 2 && SimpleEscape(c[1]).Some? && Closed(c[2..])
    else Closed(c[1..])
  }

  lemma CatAssociative(a: Option<bytes>, b: Option<bytes>, c: Option<bytes>)
    ensures Cat(Cat(a, b), c) == Cat(a, Cat(b, c))
  {
    if a.Some? && b.Some? && c.Some? { assert a.value + b.value + c.value == a.value + (b.value + c.value); }
  }

  lemma {:induction false} ClosedJoins(a: Text, b: Text)
    requires Closed(a)
    ensures Lex(a).Some? && Lex(a + b) == Cat(Lex(a), Lex(b))
  {
    if a == [] {
      assert a + b == b;
      if Lex(b).Some? { assert [] + Lex(b).value == Lex(b).value; }
    } else {
      var n := if a[0] == BACKSLASH then 2 else 1;
      assert (a + b)[0] == a[0] && (n == 2 ==> (a + b)[1] == a[1]);
      assert (a + b)[n..] == a[n..] + b;
      ClosedJoins(a[n..], b);
      CatAssociative(Some(LexOne(a).value.0), Lex(a[n..]), Lex(b));
    }
  }

  lemma {:induction false} ClosedConcat(a: Text, b: Text)
    requires Closed(a) && Closed(b)
    ensures Closed(a + b)
  {
    if a == [] {
      assert a + b == b;
    } else {
      var n := if a[0] == BACKSLASH then 2 else 1;
      assert (a + b)[0] == a[0] && (n == 2 ==> (a + b)[1] == a[1]);
      assert (a + b)[n..] == a[n..] + b;
      ClosedConcat(a[n..], b);
    }
  }

  // ---------------------------------------------------------------- escaping

  function HexDigitOf(d: nat): Char
    requires d < 16
  {
    if d < 10 then Ascii(0x30 + d) else Ascii(0x41 + d - 10)
  }

  function HexEscape(b: byte): (c: Text)
    ensures |c| == 4
  {
    [BACKSLASH, LETTER_X, HexDigitOf(b / 16), HexDigitOf(b % 16)]
  }

  lemma DigitReads(d: nat)
    requires d < 16
    ensures Digit(HexDigitOf(d)) == Some(d)
  {
  }

  lemma HexEscapeReads(b: byte)
    ensures Lex(HexEscape(b)) == Some([b])
  {
    var c, high, low := HexEscape(b), HexDigitOf(b / 16), HexDigitOf(b % 16);
    DigitReads(b / 16);
    DigitReads(b % 16);
    assert c[2..] == [high, low] && [high, low][1..] == [low] && c[4..] == [];
    assert ReadDigits([low], 16, 1, b / 16) == (b / 16 * 16 + b % 16, 1);
    assert ReadDigits([high, low], 16, 2, 0) == (b / 16 * 16 + b % 16, 2);
    assert LexOne(c) == Some(([b], 4));
    OneToken(c, [b]);
  }

  /** `s.replace("\n", ...)`: a newline becomes the escape for it. */
  function Replaced(s: Text): Text {
    if s == [] then []
    else (if s[0] == NEWLINE then [BACKSLASH, LETTER_N] else [s[0]]) + Replaced(s[1..])
  }

  /** The segments for the rest of a text, `current` being the one under way. A segment ends after
      every hexadecimal escape. */
  function Segments(r: Text, current: Text): (segments: seq<Text>)
    ensures segments != []
    decreases |r|
  {
    if r == [] then [current]
    else if r[0] == BACKSLASH && |r| > 1 then
      if SimpleEscape(r[1]).Some? then Segments(r[2..], current + r[..2])
      else if r[1] == LETTER_X && |r| > 3 then [current + r[..4]] + Segments(r[4..], [])
      else Segments(r[1..], current + [BACKSLASH, BACKSLASH])
    else if r[0] == QUOTE then Segments(r[1..], current + [BACKSLASH, QUOTE])
    else if r[0].Ascii? then Segments(r[1..], current + [r[0]])
    else WideSegments(r[0].utf8, current) + Segments(r[1..], [])
  }

  function WideSegments(utf8: bytes, current: Text): seq<Text>
    requires utf8 != []
  {
    if |utf8| == 1 then [current + HexEscape(utf8[0])]
    else [current + HexEscape(utf8[0])] + WideSegments(utf8[1..], [])
  }

  /** `escape_cpp_string`. */
  method EscapeCppString(s: Text) returns (segments: seq<Text>)
    ensures segments == Segments(Replaced(s), [])
  {
    if s == [] {
      return [[]];
    }
    var r := Replaced(s);
    segments := [];
    var current: Text := [];
    var i := 0;
    while i < |r|
      invariant i <= |r| && Segments(r, []) == segments + Segments(r[i..], current)
    {
      SegmentsAt(r, i, current);
      var ch := r[i];
      if ch == BACKSLASH && i + 1 < |r| {
        if SimpleEscape(r[i + 1]).Some? {
          current := current + r[i..i + 2];
          i := i + 2;
        } else if r[i + 1] == LETTER_X && i + 3 < |r| {
          Append(segments, [current + r[i..i + 4]], Segments(r[i + 4..], []));
          segments := segments + [current + r[i..i + 4]];
          current := [];
          i := i + 4;
        } else {
          current := current + [BACKSLASH, BACKSLASH];
          i := i + 1;
        }
      } else if ch == QUOTE {
        current := current + [BACKSLASH, QUOTE];
        i := i + 1;
      } else if ch.Ascii? {
        current := current + [ch];
        i := i + 1;
      } else {
        var more := EscapeWide(ch.utf8, current);
        Append(segments, more, Segments(r[i + 1..], []));
        segments := segments + more;
        current := [];
        i := i + 1;
      }
    }
    return segments + [current];
  }

  lemma Append(a: seq<Text>, b: seq<Text>, c: seq<Text>)
    ensures a + (b + c) == (a + b) + c
  {
  }

  /** What the character at `i` adds. */
  lemma SegmentsAt(r: Text, i: nat, current: Text)
    requires i < |r|
    ensures Segments(r[i..], current)
         == if r[i] == BACKSLASH && i + 1 < |r| then
              if SimpleEscape(r[i + 1]).Some? then Segments(r[i + 2..], current + r[i..i + 2])
              else if r[i + 1] == LETTER_X && i + 3 < |r| then [current + r[i..i + 4]] + Segments(r[i + 4..], [])
              else Segments(r[i + 1..], current + [BACKSLASH, BACKSLASH])
            else if r[i] == QUOTE then Segments(r[i + 1..], current + [BACKSLASH, QUOTE])
            else if r[i].Ascii? then Segments(r[i + 1..], current + [r[i]])
            else WideSegments(r[i].utf8, current) + Segments(r[i + 1..], [])
  {
    var rest := r[i..];
    if i + 2 <= |r| { Suffix(r, i, 2); }
    if i + 4 <= |r| { Suffix(r, i, 4); }
    Suffix(r, i, 1);
  }

  lemma Suffix(r: Text, i: nat, n: nat)
    requires i + n <= |r|
    ensures r[i..][..n] == r[i..i + n] && r[i..][n..] == r[i + n..]
  {
  }

  method EscapeWide(utf8: bytes, first: Text) returns (segments: seq<Text>)
    requires utf8 != []
    ensures segments == WideSegments(utf8, first)
  {
    segments := [];
    var current := first;
    for k := 0 to |utf8|
      invariant k < |utf8| ==> WideSegments(utf8, first) == segments + WideSegments(utf8[k..], current)
      invariant k == |utf8| ==> WideSegments(utf8, first) == segments
    {
      assert utf8[k..][1..] == utf8[k + 1..] && utf8[k..][0] == utf8[k];
      segments := segments + [current + HexEscape(utf8[k])];
      current := [];
    }
  }

  // ---------------------------------------------------------------- what the escaped text means

  const NUL_ESCAPE: Text := [BACKSLASH, ZERO]

  /** The separator goes to the end of the last segment. */
  function WithNul(segments: seq<Text>): seq<Text>
    requires segments != []
  {
    segments[..|segments| - 1] + [segments[|segments| - 1] + NUL_ESCAPE]
  }

  /** The bytes a text stands for once escaped and followed by the separator. */
  function Decoded(r: Text): Option<bytes> {
    if r == [] then Some([0])
    else if r[0] == BACKSLASH && |r| > 1 then
      if SimpleEscape(r[1]).Some? then Cat(Some([SimpleEscape(r[1]).value]), Decoded(r[2..]))
      else if r[1] == LETTER_X && |r| > 3 then Cat(Lex(r[..4]), Decoded(r[4..]))
      else Cat(Some([0x5C]), Decoded(r[1..]))
    else if r == [BACKSLASH] then Some([0x5C, 0x30])
    else Cat(Some(BytesOf(r[0])), Decoded(r[1..]))
  }

  lemma NulReads()
    ensures Lex(NUL_ESCAPE) == Some([0]) && Lex([BACKSLASH] + NUL_ESCAPE) == Some([0x5C, 0x30])
  {
    assert NUL_ESCAPE[1..] == [ZERO] && [ZERO][1..] == [];
    assert ReadDigits([ZERO], 8, 3, 0) == (0, 1);
    OneToken(NUL_ESCAPE, [0]);
    OneToken([ZERO], [0x30]);
    var c := [BACKSLASH] + NUL_ESCAPE;
    assert c[2..] == [ZERO];
    assert LexOne(c) == Some(([0x5C], 2));
    var first: bytes, second: bytes := [0x5C], [0x30];
    assert first + second == [0x5C, 0x30];
  }

  lemma WithNulTail(first: Text, rest: seq<Text>)
    requires rest != []
    ensures WithNul([first] + rest) == [first] + WithNul(rest)
  {
  }

  lemma LexAllOne(c: Text)
    ensures LexAll([c]) == Lex(c)
  {
    if Lex(c).Some? { assert Lex(c).value + [] == Lex(c).value; }
  }

  lemma LexAllCons(first: Text, rest: seq<Text>)
    ensures LexAll([first] + rest) == Cat(Lex(first), LexAll(rest))
  {
    assert ([first] + rest)[1..] == rest;
  }

  /** The compiler reads the segments of a text, with the separator, as the bytes it stands for. */
  lemma {:induction false} SegmentsDecode(r: Text, current: Text)
    requires Closed(current) && NEWLINE !in r
    ensures LexAll(WithNul(Segments(r, current))) == Cat(Lex(current), Decoded(r))
    decreases |r|
  {
    if r == [] {
      NulReads();
      ClosedJoins(current, NUL_ESCAPE);
      LexAllOne(current + NUL_ESCAPE);
    } else if r == [BACKSLASH] {
      LastBackslash(current);
    } else if r[0] == BACKSLASH && SimpleEscape(r[1]).Some? {
      OneToken(r[..2], [SimpleEscape(r[1]).value]);
      assert r[..2][2..] == [];
      Step(r, current, r[..2], 2);
    } else if r[0] == BACKSLASH && r[1] == LETTER_X && |r| > 3 {
      SegmentsDecode(r[4..], []);
      ClosedJoins(current, r[..4]);
      EndSegment(current + r[..4], Segments(r[4..], []), Decoded(r[4..]));
      CatAssociative(Lex(current), Lex(r[..4]), Decoded(r[4..]));
    } else if r[0] == BACKSLASH {
      OneToken([BACKSLASH, BACKSLASH], [0x5C]);
      Step(r, current, [BACKSLASH, BACKSLASH], 1);
    } else if r[0] == QUOTE {
      OneToken([BACKSLASH, QUOTE], [0x22]);
      Step(r, current, [BACKSLASH, QUOTE], 1);
    } else if r[0].Ascii? {
      OneToken([r[0]], [r[0].code]);
      Step(r, current, [r[0]], 1);
    } else {
      SegmentsDecode(r[1..], []);
      WideDecode(r[0].utf8, current, Segments(r[1..], []), Decoded(r[1..]));
    }
  }

  lemma LastBackslash(current: Text)
    requires Closed(current)
    ensures LexAll(WithNul(Segments([BACKSLASH], current))) == Cat(Lex(current), Decoded([BACKSLASH]))
  {
    var c := [BACKSLASH] + NUL_ESCAPE;
    NulReads();
    ClosedJoins(current, c);
    assert current + [BACKSLASH] + NUL_ESCAPE == current + c;
    assert Segments([BACKSLASH], current) == Segments([], current + [BACKSLASH]) == [current + [BACKSLASH]];
    LexAllOne(current + c);
  }

  /** One closed piece more in the segment under way. */
  lemma {:induction false} Step(r: Text, current: Text, piece: Text, n: nat)
    requires Closed(current) && Closed(piece) && 0 < n <= |r| && NEWLINE !in r
    requires Segments(r, current) == Segments(r[n..], current + piece)
    requires Decoded(r) == Cat(Lex(piece), Decoded(r[n..]))
    ensures LexAll(WithNul(Segments(r, current))) == Cat(Lex(current), Decoded(r))
    decreases |r|, 0
  {
    ClosedConcat(current, piece);
    ClosedJoins(current, piece);
    SegmentsDecode(r[n..], current + piece);
    CatAssociative(Lex(current), Lex(piece), Decoded(r[n..]));
  }

  lemma EndSegment(first: Text, rest: seq<Text>, decoded: Option<bytes>)
    requires rest != [] && LexAll(WithNul(rest)) == Cat(Some([]), decoded)
    ensures LexAll(WithNul([first] + rest)) == Cat(Lex(first), decoded)
  {
    WithNulTail(first, rest);
    LexAllCons(first, WithNul(rest));
    CatEmpty(decoded);
  }

  lemma CatEmpty(b: Option<bytes>)
    ensures Cat(Some([]), b) == b && Cat(b, Some([])) == b
  {
    if b.Some? { assert [] + b.value == b.value && b.value + [] == b.value; }
  }

  lemma {:induction false} WideDecode(utf8: bytes, current: Text, rest: seq<Text>, decoded: Option<bytes>)
    requires utf8 != [] && Closed(current) && rest != [] && LexAll(WithNul(rest)) == Cat(Some([]), decoded)
    ensures LexAll(WithNul(WideSegments(utf8, current) + rest)) == Cat(Lex(current), Cat(Some(utf8), decoded))
  {
    var first := current + HexEscape(utf8[0]);
    HexEscapeReads(utf8[0]);
    ClosedJoins(current, HexEscape(utf8[0]));
    if |utf8| == 1 {
      assert [utf8[0]] == utf8;
      EndSegment(first, rest, decoded);
      CatAssociative(Lex(current), Some(utf8), decoded);
    } else {
      WideDecode(utf8[1..], [], rest, decoded);
      var more := WideSegments(utf8[1..], []) + rest;
      assert WideSegments(utf8, current) + rest == [first] + more;
      EndSegment(first, more, Cat(Some(utf8[1..]), decoded));
      CatAssociative(Lex(current), Some([utf8[0]]), Cat(Some(utf8[1..]), decoded));
      CatAssociative(Some([utf8[0]]), Some(utf8[1..]), decoded);
      assert [utf8[0]] + utf8[1..] == utf8;
    }
  }

  // ---------------------------------------------------------------- which texts survive

  /** A backslash at the front that starts no escape: something follows it, and that neither makes a
      simple escape of it nor, being an x with two more characters to come, a hexadecimal one. */
  predicate Harmless(s: Text)
    requires s != [] && s[0] == BACKSLASH
  {
    |s| > 1 && SimpleEscape(s[1]).None? && s[1] != NEWLINE && (s[1] == LETTER_X ==> |Replaced(s)| <= 3)
  }

  /** No backslash in the text reads as the start of an escape. */
  predicate Safe(s: Text) {
    s == [] || ((s[0] == BACKSLASH ==> Harmless(s)) && Safe(s[1..]))
  }

  lemma {:induction false} ReplacedHasNoNewline(s: Text)
    ensures NEWLINE !in Replaced(s)
  {
    if s != [] { ReplacedHasNoNewline(s[1..]); }
  }

  lemma ReplacedCons(s: Text)
    requires s != []
    ensures s[0] != NEWLINE ==> Replaced(s)[0] == s[0] && Replaced(s)[1..] == Replaced(s[1..])
    ensures s[0] == NEWLINE ==> Replaced(s) == [BACKSLASH, LETTER_N] + Replaced(s[1..])
  {
  }

  function Size(d: Option<bytes>): nat { if d.Some? then |d.value| else 0 }

  lemma CatSize(a: Option<bytes>, b: Option<bytes>)
    ensures Cat(a, b).Some? ==> Size(Cat(a, b)) == Size(a) + Size(b)
  {
  }

  /** A hexadecimal escape of four characters stands for fewer bytes than it has. */
  lemma HexShrinks(c: Text)
    requires |c| == 4 && c[0] == BACKSLASH && c[1] == LETTER_X && Lex(c).Some?
    ensures c[2] != BACKSLASH && c[3] != BACKSLASH
    ensures Size(Lex(c)) < 2 + |BytesOf(c[2])| + |BytesOf(c[3])|
  {
    var n := LexOne(c).value.1;
    assert c[2..] == [c[2], c[3]] && [c[2], c[3]][1..] == [c[3]] && [c[3]][1..] == [];
    if n == 4 {
      assert ReadDigits([c[3]], 16, 1, Digit(c[2]).value).1 == 1;
      assert c[4..] == [] && Lex(c) == Cat(Some(LexOne(c).value.0), Some([]));
    } else {
      assert n == 3 && c[3..] == [c[3]];
      assert Lex([c[3]]).Some?;
      LexOneChar(c[3]);
    }
  }

  lemma LexOneChar(c: Char)
    requires Lex([c]).Some?
    ensures c != BACKSLASH && Lex([c]) == Some(BytesOf(c))
  {
    OneToken([c], BytesOf(c));
  }

  /** An escape at the front of a replaced text and the characters of the text it swallows. */
  lemma SwallowedByHex(s: Text)
    requires |Replaced(s)| > 3 && s != [] && s[0] == BACKSLASH && |s| > 1 && s[1] == LETTER_X
    requires Lex(Replaced(s)[..4]).Some?
    ensures |s| >= 4 && Replaced(s)[..4] == s[..4] && Replaced(s)[4..] == Replaced(s[4..])
    ensures Size(Lex(s[..4])) < |Utf8(s[..4])| && Utf8(s) == Utf8(s[..4]) + Utf8(s[4..])
  {
    var r := Replaced(s);
    HexShrinks(r[..4]);
    ReplacedCons(s);
    ReplacedCons(s[1..]);
    assert r[1] == s[1] && r[2..] == Replaced(s[2..]);
    assert s[2..] != [];
    ReplacedCons(s[2..]);
    assert r[2] == s[2] && r[3..] == Replaced(s[3..]);
    assert s[3..] != [];
    ReplacedCons(s[3..]);
    assert r[3] == s[3] && r[4..] == Replaced(s[4..]);
    assert r[..4] == s[..4];
    Utf8Splits(s, 4);
    FourChars(s[..4]);
  }

  lemma FourChars(c: Text)
    requires |c| == 4 && c[0].Ascii? && c[1].Ascii?
    ensures |Utf8(c)| == 2 + |BytesOf(c[2])| + |BytesOf(c[3])|
  {
    assert Utf8(c[4..]) == [] && c[3..][1..] == c[4..] && c[2..][1..] == c[3..] && c[1..][1..] == c[2..];
    assert |Utf8(c[3..])| == |BytesOf(c[3])|;
    assert |Utf8(c[2..])| == |BytesOf(c[2])| + |Utf8(c[3..])|;
    assert |Utf8(c[1..])| == 1 + |Utf8(c[2..])|;
  }

  lemma {:induction false} Utf8Splits(s: Text, k: nat)
    requires k <= |s|
    ensures Utf8(s) == Utf8(s[..k]) + Utf8(s[k..])
  {
    if k > 0 {
      Utf8Splits(s[1..], k - 1);
      assert s[1..][..k - 1] == s[..k][1..] && s[1..][k - 1..] == s[k..];
    }
  }

  /** Escaping never makes a text longer. */
  lemma {:induction false} NeverLonger(s: Text)
    ensures Size(Decoded(Replaced(s))) <= |Utf8(s)| + 1
    decreases |s|
  {
    if s != [] {
      var r := Replaced(s);
      ReplacedCons(s);
      if s[0] != BACKSLASH {
        NeverLonger(s[1..]);
        FrontDecodes(s);
        CatSize(Some(BytesOf(s[0])), Decoded(Replaced(s[1..])));
      } else if |s| > 1 {
        BackslashSize(s);
      }
    }
  }

  /** A first character that is no backslash decodes to itself. */
  lemma FrontDecodes(s: Text)
    requires s != [] && s[0] != BACKSLASH
    ensures Decoded(Replaced(s)) == Cat(Some(BytesOf(s[0])), Decoded(Replaced(s[1..])))
  {
    var r := Replaced(s);
    ReplacedCons(s);
    if s[0] == NEWLINE { assert r[2..] == Replaced(s[1..]); }
  }

  lemma HarmlessDecodes(s: Text)
    requires s != [] && s[0] == BACKSLASH && Harmless(s)
    ensures Decoded(Replaced(s)) == Cat(Some([0x5C]), Decoded(Replaced(s[1..])))
  {
    ReplacedCons(s);
    ReplacedCons(s[1..]);
  }

  /** Before a newline a backslash takes the backslash of the newline's escape. */
  lemma BeforeNewline(s: Text)
    requires |s| > 1 && s[0] == BACKSLASH && s[1] == NEWLINE
    ensures Decoded(Replaced(s)) == Cat(Some([0x5C, 0x6E]), Decoded(Replaced(s[2..])))
  {
    var tail := Replaced(s[2..]);
    ReplacedCons(s);
    ReplacedCons(s[1..]);
    assert s[1..][1..] == s[2..];
    assert Replaced(s) == [BACKSLASH, BACKSLASH, LETTER_N] + tail;
    BrokenNewline(tail);
  }

  lemma BrokenNewline(tail: Text)
    ensures Decoded([BACKSLASH, BACKSLASH, LETTER_N] + tail) == Cat(Some([0x5C, 0x6E]), Decoded(tail))
  {
    var r := [BACKSLASH, BACKSLASH, LETTER_N] + tail;
    assert r[2..] == [LETTER_N] + tail && r[2..][1..] == tail;
    assert Decoded(r[2..]) == Cat(Some([0x6E]), Decoded(tail));
    CatAssociative(Some([0x5C]), Some([0x6E]), Decoded(tail));
    var first: bytes, second: bytes := [0x5C], [0x6E];
    assert first + second == [0x5C, 0x6E];
  }

  lemma SimpleDecodes(s: Text)
    requires |s| > 1 && s[0] == BACKSLASH && SimpleEscape(s[1]).Some?
    ensures Decoded(Replaced(s)) == Cat(Some([SimpleEscape(s[1]).value]), Decoded(Replaced(s[2..])))
  {
    ReplacedTwo(s);
    SimpleFront(s[1], Replaced(s[2..]));
  }

  lemma ReplacedTwo(s: Text)
    requires |s| > 1 && s[0] != NEWLINE && s[1] != NEWLINE
    ensures Replaced(s) == [s[0], s[1]] + Replaced(s[2..])
  {
    ReplacedFront(s);
    ReplacedFront(s[1..]);
    assert s[1..][1..] == s[2..];
    TwoFronts(s[0], s[1], Replaced(s[2..]));
  }

  lemma ReplacedFront(s: Text)
    requires s != [] && s[0] != NEWLINE
    ensures Replaced(s) == [s[0]] + Replaced(s[1..])
  {
  }

  lemma TwoFronts(a: Char, b: Char, tail: Text)
    ensures [a] + ([b] + tail) == [a, b] + tail
  {
  }

  lemma SimpleFront(c: Char, tail: Text)
    requires SimpleEscape(c).Some?
    ensures Decoded([BACKSLASH, c] + tail) == Cat(Some([SimpleEscape(c).value]), Decoded(tail))
  {
    assert ([BACKSLASH, c] + tail)[2..] == tail;
  }

  lemma TwoChars(s: Text)
    requires |s| > 1 && s[0].Ascii? && s[1].Ascii?
    ensures |Utf8(s)| == 2 + |Utf8(s[2..])| && Utf8(s)[0] == s[0].code && Utf8(s)[1] == s[1].code
  {
    assert s[1..][1..] == s[2..];
    assert Utf8(s) == BytesOf(s[0]) + (BytesOf(s[1]) + Utf8(s[2..]));
  }

  lemma {:induction false} BackslashSize(s: Text)
    requires |s| > 1 && s[0] == BACKSLASH
    ensures Size(Decoded(Replaced(s))) <= |Utf8(s)| + 1
    decreases |s|, 0
  {
    if s[1] == NEWLINE {
      BeforeNewline(s);
      NeverLonger(s[2..]);
      TwoChars(s);
    } else if SimpleEscape(s[1]).Some? {
      SimpleDecodes(s);
      NeverLonger(s[2..]);
      TwoChars(s);
    } else if Harmless(s) {
      HarmlessDecodes(s);
      NeverLonger(s[1..]);
    } else {
      HexDecodes(s);
      if Lex(Replaced(s)[..4]).Some? {
        SwallowedByHex(s);
        NeverLonger(s[4..]);
      }
    }
  }

  lemma HexDecodes(s: Text)
    requires |s| > 1 && s[0] == BACKSLASH && s[1] == LETTER_X && |Replaced(s)| > 3
    ensures Decoded(Replaced(s)) == Cat(Lex(Replaced(s)[..4]), Decoded(Replaced(s)[4..]))
  {
    ReplacedCons(s);
    ReplacedCons(s[1..]);
  }

  lemma CatCancels(a: bytes, d: Option<bytes>, b: bytes)
    ensures Cat(Some(a), d) == Some(a + b) <==> d == Some(b)
  {
    if d.Some? && a + d.value == a + b {
      assert (a + d.value)[|a|..] == d.value && (a + b)[|a|..] == b;
    }
  }

  /** Escaped and compiled, a text is itself followed by its separator exactly if no backslash in it
      reads as the start of an escape. */
  lemma {:induction false} SurvivesIff(s: Text)
    ensures Decoded(Replaced(s)) == Some(Utf8(s) + [0]) <==> Safe(s)
    decreases |s|
  {
    if s == [] {
      assert Utf8(s) + [0] == [0];
    } else {
      var rest := Utf8(s[1..]) + [0];
      assert Utf8(s) + [0] == BytesOf(s[0]) + rest;
      if s[0] != BACKSLASH {
        SurvivesIff(s[1..]);
        FrontDecodes(s);
        CatCancels(BytesOf(s[0]), Decoded(Replaced(s[1..])), rest);
      } else if |s| == 1 {
        assert Replaced(s[1..]) == [] && Replaced(s) == [BACKSLASH];
        assert Utf8(s) == [0x5C] && (Utf8(s) + [0])[1] == 0 && Decoded(Replaced(s)).value[1] == 0x30;
      } else if Harmless(s) {
        SurvivesIff(s[1..]);
        HarmlessDecodes(s);
        CatCancels([0x5C], Decoded(Replaced(s[1..])), rest);
      } else {
        HarmfulIsLost(s);
      }
    }
  }

  lemma HarmfulIsLost(s: Text)
    requires |s| > 1 && s[0] == BACKSLASH && !Harmless(s)
    ensures Decoded(Replaced(s)) != Some(Utf8(s) + [0])
  {
    if s[1] == NEWLINE {
      BeforeNewline(s);
      TwoChars(s);
      if Decoded(Replaced(s)).Some? {
        assert Decoded(Replaced(s)).value[1] == 0x6E && (Utf8(s) + [0])[1] == 0x0A;
      }
    } else if SimpleEscape(s[1]).Some? {
      SimpleDecodes(s);
      NeverLonger(s[2..]);
      TwoChars(s);
    } else {
      HexDecodes(s);
      if Lex(Replaced(s)[..4]).Some? {
        SwallowedByHex(s);
        NeverLonger(s[4..]);
      }
    }
  }
}

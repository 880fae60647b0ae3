/** Breaking long literals into lines of source, and when the compiler still reads the same bytes. */
module CppLines {
  import opened Bytes
  import opened Wrappers
  import opened CppLiterals

  const MAX_CONTENT := 113

  // ---------------------------------------------------------------- choosing a cut

  function StepAt(c: Text, i: nat): nat
    requires i < |c|
  {
    if c[i] == BACKSLASH then 2 else 1
  }

  /** The last space within the limit at or after `i`, stepping over escapes, or else `last`. */
  function LastSpace(c: Text, i: nat, last: int): (k: int)
    requires -1 <= last < |c|
    ensures k == last || (i <= k < |c| && k <= MAX_CONTENT && c[k] == SPACE)
    decreases |c| - i
  {
    if i <= MAX_CONTENT && i < |c| then LastSpace(c, i + StepAt(c, i), if c[i] == SPACE then i else last) else last
  }

  /** Behind the last space, or without one at the limit, moved before a backslash. */
  function CutAt(c: Text): (k: nat)
    requires |c| > MAX_CONTENT
    ensures 0 < k <= |c|
  {
    var space := LastSpace(c, 0, -1);
    if space != -1 then space + 1 else if c[MAX_CONTENT - 1] == BACKSLASH then MAX_CONTENT - 1 else MAX_CONTENT
  }

  function Wrapped(c: Text): seq<Text> {
    if |c| <= MAX_CONTENT then (if c == [] then [] else [c]) else [c[..CutAt(c)]] + Wrapped(c[CutAt(c)..])
  }

  function Formatted(segments: seq<Text>): seq<Text> {
    if segments == [] then []
    else (if |segments[0]| <= MAX_CONTENT then [segments[0]] else Wrapped(segments[0])) + Formatted(segments[1..])
  }

  /** `format_cpp_string_literal`, without the quotes and the indentation. */
  method FormatCppStringLiteral(segments: seq<Text>) returns (lines: seq<Text>)
    ensures lines == Formatted(segments)
  {
    lines := [];
    for i := 0 to |segments|
      invariant Formatted(segments) == lines + Formatted(segments[i..])
    {
      assert segments[i..][1..] == segments[i + 1..] && segments[i..][0] == segments[i];
      Append(lines, if |segments[i]| <= MAX_CONTENT then [segments[i]] else Wrapped(segments[i]),
             Formatted(segments[i + 1..]));
      if |segments[i]| <= MAX_CONTENT {
        lines := lines + [segments[i]];
      } else {
        var wrapped := WrapSegment(segments[i]);
        lines := lines + wrapped;
      }
    }
  }

  method WrapSegment(segment: Text) returns (lines: seq<Text>)
    ensures lines == Wrapped(segment)
  {
    lines := [];
    var current := segment;
    while |current| > MAX_CONTENT
      invariant Wrapped(segment) == lines + Wrapped(current)
      decreases |current|
    {
      var lastSpace := FindLastSpace(current);
      var cut := lastSpace + 1;
      if lastSpace == -1 {
        cut := MAX_CONTENT;
        if current[cut - 1] == BACKSLASH {
          cut := cut - 1;
        }
      }
      Append(lines, [current[..cut]], Wrapped(current[cut..]));
      lines := lines + [current[..cut]];
      current := current[cut..];
    }
    if current != [] {
      lines := lines + [current];
    }
  }

  method FindLastSpace(c: Text) returns (lastSpace: int)
    ensures lastSpace == LastSpace(c, 0, -1)
  {
    lastSpace := -1;
    var i := 0;
    while i <= MAX_CONTENT && i < |c|
      invariant -1 <= lastSpace < |c| && LastSpace(c, 0, -1) == LastSpace(c, i, lastSpace)
      decreases |c| - i
    {
      if c[i] == SPACE {
        lastSpace := i;
      }
      i := i + StepAt(c, i);
    }
  }

  // ---------------------------------------------------------------- cuts between escapes

  /** Position `k` lies between two characters or escapes. */
  ghost predicate Boundary(c: Text, k: nat)
    decreases |c|
  {
    k == 0
    || (c != [] && LexOne(c).Some? && LexOne(c).value.1 <= k && Boundary(c[LexOne(c).value.1..], k - LexOne(c).value.1))
  }

  lemma {:induction false} DigitsOfPrefix(c: Text, k: nat, radix: nat, most: nat, fewer: nat, value: nat)
    requires k <= |c| && ReadDigits(c, radix, most, value).1 <= k && ReadDigits(c, radix, most, value).1 <= fewer <= most
    ensures ReadDigits(c[..k], radix, fewer, value) == ReadDigits(c, radix, most, value)
  {
    if ReadDigits(c, radix, most, value).1 > 0 {
      assert c[..k][1..] == c[1..][..k - 1];
      DigitsOfPrefix(c[1..], k - 1, radix, most - 1, fewer - 1, value * radix + Digit(c[0]).value);
    }
  }

  lemma LexOneOfPrefix(c: Text, k: nat)
    requires c != [] && k <= |c| && LexOne(c).Some? && LexOne(c).value.1 <= k
    ensures LexOne(c[..k]) == LexOne(c)
  {
    var p := c[..k];
    if c[0] == BACKSLASH && SimpleEscape(c[1]).None? {
      if c[1] == LETTER_X {
        assert p[2..] == c[2..][..k - 2];
        DigitsOfPrefix(c[2..], k - 2, 16, |c| - 2, k - 2, 0);
      } else {
        assert p[1..] == c[1..][..k - 1];
        DigitsOfPrefix(c[1..], k - 1, 8, 3, 3, 0);
      }
    }
  }

  lemma CutBehind(c: Text, n: nat, k: nat)
    requires n <= k <= |c|
    ensures c[..k][n..] == c[n..][..k - n] && c[n..][k - n..] == c[k..]
  {
  }

  lemma LexFirst(c: Text, b: bytes, n: nat)
    requires c != [] && LexOne(c) == Some((b, n))
    ensures Lex(c) == Cat(Some(b), Lex(c[n..]))
  {
  }

  function Rejoined(c: Text, k: nat): Option<bytes>
    requires k <= |c|
  {
    Cat(Lex(c[..k]), Lex(c[k..]))
  }

  /** A literal cut between escapes reads as its two parts. */
  lemma {:induction false} BoundarySplits(c: Text, k: nat)
    requires Boundary(c, k) && k <= |c|
    ensures Lex(c) == Rejoined(c, k)
    decreases |c|
  {
    if k == 0 {
      NoCut(c);
    } else {
      var b, n := FirstBeforeBoundary(c, k);
      BoundarySplits(c[n..], k - n);
      SplitBehind(c, b, n, k);
    }
  }

  lemma FirstBeforeBoundary(c: Text, k: nat) returns (b: bytes, n: nat)
    requires Boundary(c, k) && 0 < k <= |c|
    ensures 0 < n <= k && Boundary(c[n..], k - n) && LexOne(c) == Some((b, n)) == LexOne(c[..k])
  {
    b, n := LexOne(c).value.0, LexOne(c).value.1;
    LexOneOfPrefix(c, k);
  }

  lemma NoCut(c: Text)
    ensures Lex(c) == Rejoined(c, 0)
  {
    assert c[..0] == [] && c[0..] == c;
    CatEmpty(Lex(c));
  }

  lemma SplitBehind(c: Text, b: bytes, n: nat, k: nat)
    requires 0 < n <= k <= |c| && LexOne(c) == Some((b, n)) == LexOne(c[..k])
    requires Lex(c[n..]) == Rejoined(c[n..], k - n)
    ensures Lex(c) == Rejoined(c, k)
  {
    CutBehind(c, n, k);
    LexFirst(c, b, n);
    LexFirst(c[..k], b, n);
    CatAssociative(Some(b), Lex(c[n..][..k - n]), Lex(c[k..]));
  }

  /** Every cut of the segment lies between escapes. */
  ghost predicate CleanCuts(c: Text) {
    |c| <= MAX_CONTENT || (Boundary(c, CutAt(c)) && CleanCuts(c[CutAt(c)..]))
  }

  lemma {:induction false} WrappedReads(c: Text)
    requires CleanCuts(c)
    ensures LexAll(Wrapped(c)) == Lex(c)
  {
    if |c| > MAX_CONTENT {
      var k := CutAt(c);
      BoundarySplits(c, k);
      WrappedReads(c[k..]);
      LexAllCons(c[..k], Wrapped(c[k..]));
    } else if c != [] {
      LexAllOne(c);
    }
  }

  ghost predicate AllClean(segments: seq<Text>) { forall c :: c in segments ==> CleanCuts(c) }

  lemma {:induction false} LexAllConcat(a: seq<Text>, b: seq<Text>)
    ensures LexAll(a + b) == Cat(LexAll(a), LexAll(b))
  {
    if a == [] {
      assert a + b == b;
      CatEmpty(LexAll(b));
    } else {
      assert (a + b)[0] == a[0] && (a + b)[1..] == a[1..] + b;
      LexAllConcat(a[1..], b);
      CatAssociative(Lex(a[0]), LexAll(a[1..]), LexAll(b));
    }
  }

  lemma {:induction false} FormattedReads(segments: seq<Text>)
    requires AllClean(segments)
    ensures LexAll(Formatted(segments)) == LexAll(segments)
  {
    if segments != [] {
      var first := if |segments[0]| <= MAX_CONTENT then [segments[0]] else Wrapped(segments[0]);
      assert segments[0] in segments;
      FormattedReads(segments[1..]);
      LexAllConcat(first, Formatted(segments[1..]));
      if |segments[0]| <= MAX_CONTENT { LexAllOne(segments[0]); } else { WrappedReads(segments[0]); }
    }
  }

  // ---------------------------------------------------------------- cuts at spaces

  /** What ends a segment: nothing, one hexadecimal escape, or the separator. */
  predicate IsTail(t: Text) {
    t == [] || t == NUL_ESCAPE
    || (|t| == 4 && t[0] == BACKSLASH && t[1] == LETTER_X && Digit(t[2]).Some? && Digit(t[3]).Some?)
  }

  /** Closed characters and then one tail: the shape of the segments of a safe text. */
  ghost predicate Shaped(c: Text) { exists a, t :: Closed(a) && IsTail(t) && c == a + t }

  lemma ClosedFront(a: Text, t: Text)
    requires Closed(a) && a != []
    ensures StepAt(a, 0) <= |a| && LexOne(a + t).Some? && LexOne(a + t).value.1 == StepAt(a, 0)
    ensures Closed(a[StepAt(a, 0)..])
  {
    var c := a + t;
    assert c[0] == a[0];
    if a[0] == BACKSLASH {
      assert c[1] == a[1] && SimpleEscape(c[1]).Some?;
    }
  }

  /** What one step of the scan knows. */
  lemma ScanStep(c: Text, i: nat, a: Text, t: Text, n: nat)
    requires i <= |c| && c[i..] == a + t && Closed(a) && a != [] && n == StepAt(a, 0)
    ensures i < |c| && c[i] == a[0] && n == StepAt(c, i) && n <= |a| && i + n <= |c|
    ensures c[i + n..] == a[n..] + t && Closed(a[n..])
  {
    ClosedFront(a, t);
    SuffixStep(c, i, a, t, n);
  }

  lemma SuffixStep(c: Text, i: nat, a: Text, t: Text, n: nat)
    requires i <= |c| && c[i..] == a + t && n <= |a| && a != []
    ensures i < |c| && c[i] == a[0] && i + n <= |c| && c[i + n..] == a[n..] + t
  {
    assert c[i] == c[i..][0];
    assert c[i + n..] == c[i..][n..];
  }

  lemma BoundaryFurther(a: Text, t: Text, n: nat, k: nat)
    requires Closed(a) && a != [] && n == StepAt(a, 0) <= |a| && Boundary(a[n..] + t, k)
    ensures Boundary(a + t, n + k)
  {
    ClosedFront(a, t);
    assert (a + t)[n..] == a[n..] + t;
  }

  /** A cut after `m` closed characters lies between escapes and leaves closed characters. */
  ghost predicate CutBefore(a: Text, t: Text, m: int) {
    0 < m <= |a| && Boundary(a + t, m) && Closed(a[m..])
  }

  /** Scanning from a boundary, the last space found is one character before a boundary, and what
      follows it keeps the shape. */
  lemma {:induction false} SpaceIsBoundary(c: Text, i: nat, last: int, a: Text, t: Text)
    requires -1 <= last < |c| && i <= |c| && c[i..] == a + t && Closed(a) && SPACE !in t
    ensures LastSpace(c, i, last) == last || CutBefore(a, t, LastSpace(c, i, last) + 1 - i)
    decreases |a|
  {
    if a == [] {
      NoSpaceLeft(c, i, last, t);
    } else if i <= MAX_CONTENT {
      var n := StepAt(a, 0);
      ScanStep(c, i, a, t, n);
      var seen := if c[i] == SPACE then i else last;
      SpaceIsBoundary(c, i + n, seen, a[n..], t);
      SpaceFound(c, i, last, a, t, n, seen, LastSpace(c, i + n, seen));
    }
  }

  lemma SpaceFound(c: Text, i: nat, last: int, a: Text, t: Text, n: nat, seen: int, k: int)
    requires -1 <= last < |c| && i <= MAX_CONTENT && i < |c| && Closed(a) && a != [] && c[i] == a[0]
    requires n == StepAt(a, 0) == StepAt(c, i) <= |a| && seen == if c[i] == SPACE then i else last
    requires k == LastSpace(c, i + n, seen) && (k == seen || CutBefore(a[n..], t, k + 1 - (i + n)))
    ensures LastSpace(c, i, last) == last || CutBefore(a, t, LastSpace(c, i, last) + 1 - i)
  {
    LastSpaceStep(c, i, last);
    SpaceSeen(a, t, n, k, i, seen, last);
  }

  lemma LastSpaceStep(c: Text, i: nat, last: int)
    requires -1 <= last < |c| && i <= MAX_CONTENT && i < |c|
    ensures LastSpace(c, i, last) == LastSpace(c, i + StepAt(c, i), if c[i] == SPACE then i else last)
  {
  }

  lemma SpaceSeen(a: Text, t: Text, n: nat, k: int, i: nat, seen: int, last: int)
    requires Closed(a) && a != [] && n == StepAt(a, 0) <= |a| && (seen == last || (seen == i && a[0] == SPACE))
    requires k == seen || CutBefore(a[n..], t, k + 1 - (i + n))
    ensures k == last || CutBefore(a, t, k + 1 - i)
  {
    if k == seen {
      if seen != last { BoundaryFurther(a, t, 1, 0); }
    } else {
      BoundaryFurther(a, t, n, k + 1 - (i + n));
      assert a[n..][k + 1 - (i + n)..] == a[k + 1 - i..];
    }
  }

  lemma NoSpaceLeft(c: Text, i: nat, last: int, t: Text)
    requires -1 <= last < |c| && i <= |c| && c[i..] == [] + t && SPACE !in t
    ensures LastSpace(c, i, last) == last
  {
    assert forall k | i <= k < |c| :: c[k] == c[i..][k - i] && c[k] in t;
  }

  lemma TailHasNoSpace(t: Text)
    requires IsTail(t)
    ensures SPACE !in t
  {
  }

  /** Wherever a line is full there is a space to cut at. */
  ghost predicate NoForcedCut(c: Text) {
    |c| <= MAX_CONTENT || (LastSpace(c, 0, -1) != -1 && NoForcedCut(c[CutAt(c)..]))
  }

  lemma {:induction false} SpacesCutClean(c: Text)
    requires Shaped(c) && NoForcedCut(c)
    ensures CleanCuts(c)
  {
    if |c| > MAX_CONTENT {
      var a, t :| Closed(a) && IsTail(t) && c == a + t;
      assert c[0..] == c;
      TailHasNoSpace(t);
      SpaceIsBoundary(c, 0, -1, a, t);
      var k := CutAt(c);
      assert c[k..] == a[k..] + t;
      SpacesCutClean(c[k..]);
    }
  }

  // ---------------------------------------------------------------- cuts inside escapes

  /** In shaped characters a boundary before the end lies in their closed part. */
  lemma {:induction false} BoundaryInFront(a: Text, t: Text, k: nat)
    requires Closed(a) && IsTail(t) && Boundary(a + t, k) && k < |a + t|
    ensures k <= |a| && Closed(a[k..])
  {
    if k > 0 {
      if a == [] {
        assert a + t == t;
        TailIsOneToken(t);
      } else {
        var n := StepAt(a, 0);
        BoundaryBehind(a, t, n, k);
        BoundaryInFront(a[n..], t, k - n);
        assert a[n..][k - n..] == a[k..];
      }
    }
  }

  lemma BoundaryBehind(a: Text, t: Text, n: nat, k: nat)
    requires Closed(a) && a != [] && n == StepAt(a, 0) && Boundary(a + t, k) && k > 0
    ensures n <= |a| && n <= k && Closed(a[n..]) && Boundary(a[n..] + t, k - n)
  {
    ClosedFront(a, t);
    assert (a + t)[n..] == a[n..] + t;
  }

  lemma TailIsOneToken(t: Text)
    requires IsTail(t) && t != []
    ensures LexOne(t).Some? ==> LexOne(t).value.1 == |t|
    ensures LexOne(t).Some? && |LexOne(t).value.0| == 1
  {
    if |t| == 4 {
      assert t[2..] == [t[2], t[3]] && [t[2], t[3]][1..] == [t[3]] && [t[3]][1..] == [];
      var v := Digit(t[2]).value;
      assert ReadDigits([t[3]], 16, 1, v) == (v * 16 + Digit(t[3]).value, 1);
      assert ReadDigits([t[2], t[3]], 16, 2, 0) == (v * 16 + Digit(t[3]).value, 2);
    } else {
      assert t[1..] == [ZERO] && [ZERO][1..] == [];
      assert ReadDigits([ZERO], 8, 3, 0) == (0, 1);
    }
  }

  /** The last digit of a numeric escape goes to the next line and becomes a character of its own. */
  ghost predicate LastDigitSplit(c: Text, k: nat)
    requires k <= |c|
  {
    Lex(c).Some? && Lex(c[..k]).Some? && Lex(c[k..]).Some? && k + 1 == |c|
    && Size(Lex(c[..k])) == Size(Lex(c)) && Size(Lex(c[k..])) == 1
  }

  /** A cut between escapes, or one that leaves a lone backslash in front of something else. */
  ghost predicate Excused(c: Text, k: nat)
    requires 0 < k <= |c|
  {
    Boundary(c, k) || (c[k - 1] == BACKSLASH && !(k < |c| && c[k] == BACKSLASH))
  }

  lemma LoneBackslash()
    ensures Lex([BACKSLASH]) == None
  {
  }

  /** The cut is as unclean behind the first step. */
  lemma UncleanBehind(a: Text, t: Text, n: nat, k: nat)
    requires Closed(a) && a != [] && n == StepAt(a, 0) && n <= k <= |a + t| && !Excused(a + t, k)
    ensures 0 < n < k && n <= |a| && (a + t)[n..] == a[n..] + t && Closed(a[n..])
    ensures LexOne(a + t).Some? && LexOne(a + t).value.1 == n
    ensures !Excused(a[n..] + t, k - n)
  {
    ClosedFront(a, t);
    assert (a + t)[n..] == a[n..] + t;
    StepBehind(a + t, a[n..] + t, n, k);
  }

  lemma StepBehind(c: Text, rest: Text, n: nat, k: nat)
    requires c != [] && LexOne(c).Some? && LexOne(c).value.1 == n && 0 < n <= k <= |c| && rest == c[n..]
    requires !Excused(c, k)
    ensures n < k && !Excused(rest, k - n)
  {
    assert Boundary(c, k) == Boundary(rest, k - n);
    assert k != n by {
      assert Boundary(rest, 0);
    }
    assert rest[k - n - 1] == c[k - 1] && (k < |c| ==> rest[k - n] == c[k]);
  }

  lemma CutInEscape(a: Text, t: Text, k: nat)
    requires Closed(a) && a != [] && 0 < k < StepAt(a, 0)
    ensures k <= |a + t| && Lex((a + t)[..k]) == None
  {
    ClosedFront(a, t);
    var c := a + t;
    assert c[..k] == [BACKSLASH] by {
      assert a[0] == BACKSLASH && c[0] == a[0];
    }
    LoneBackslash();
  }

  /** A cut that does not lie between escapes leaves a line that is no literal, or splits off a digit. */
  lemma {:induction false} UncleanCut(a: Text, t: Text, k: nat)
    requires Closed(a) && IsTail(t) && 0 < k <= |a + t| && !Excused(a + t, k)
    ensures Lex((a + t)[..k]) == None || LastDigitSplit(a + t, k)
  {
    if a == [] {
      assert a + t == t;
      UncleanTail(t, k);
    } else {
      var n := StepAt(a, 0);
      if k < n {
        CutInEscape(a, t, k);
      } else {
        UncleanBehind(a, t, n, k);
        UncleanCut(a[n..], t, k - n);
        FrontOfCut(a + t, n, k);
      }
    }
  }

  lemma FrontOfCut(c: Text, n: nat, k: nat)
    requires c != [] && 0 < n < k <= |c| && LexOne(c).Some? && LexOne(c).value.1 == n
    requires Lex(c[n..][..k - n]) == None || LastDigitSplit(c[n..], k - n)
    ensures Lex(c[..k]) == None || LastDigitSplit(c, k)
  {
    LexOneOfPrefix(c, k);
    CutBehind(c, n, k);
    LexFirst(c, LexOne(c).value.0, n);
    LexFirst(c[..k], LexOne(c).value.0, n);
  }

  lemma UncleanTail(t: Text, k: nat)
    requires IsTail(t) && 0 < k <= |t| && !Boundary(t, k)
    requires t[k - 1] == BACKSLASH ==> k < |t| && t[k] == BACKSLASH
    ensures Lex(t[..k]) == None || LastDigitSplit(t, k)
  {
    TailIsOneToken(t);
    assert Boundary(t[|t|..], 0);
    if k == 2 {
      assert t[..2] == [BACKSLASH, LETTER_X] && Lex([BACKSLASH, LETTER_X]) == None;
    } else if k == 3 {
      OneToken(t, LexOne(t).value.0);
      OneDigit(t[2]);
      assert t[..3] == [BACKSLASH, LETTER_X, t[2]] && t[3..] == [t[3]];
      OneToken([t[3]], BytesOf(t[3]));
    }
  }

  lemma OneDigit(d: Char)
    requires Digit(d).Some?
    ensures Lex([BACKSLASH, LETTER_X, d]) == Some([Digit(d).value])
  {
    var c := [BACKSLASH, LETTER_X, d];
    assert c[2..] == [d] && [d][1..] == [];
    assert ReadDigits([d], 16, 1, 0) == (Digit(d).value, 1);
    OneToken(c, [Digit(d).value]);
  }

  /** The lines are no literals, or read as more bytes than the segment. */
  ghost predicate Widened(lines: Option<bytes>, c: Option<bytes>) {
    lines == None || (c.Some? && Size(lines) > Size(c))
  }

  lemma {:induction false} UncleanWidens(c: Text)
    requires Shaped(c) && !CleanCuts(c)
    ensures Widened(LexAll(Wrapped(c)), Lex(c))
  {
    var a, t :| Closed(a) && IsTail(t) && c == a + t;
    var k := CutAt(c);
    if Boundary(c, k) {
      RestUnclean(a, t, k);
      UncleanWidens(c[k..]);
      BoundarySplits(c, k);
      WidenedBehind(c, k);
    } else {
      ForcedCut(c, a, t);
      UncleanCut(a, t, k);
      SplitWidens(c, k);
    }
  }

  lemma RestUnclean(a: Text, t: Text, k: nat)
    requires Closed(a) && IsTail(t) && k <= |a + t| && Boundary(a + t, k) && !CleanCuts((a + t)[k..])
    ensures Shaped((a + t)[k..])
  {
    var c := a + t;
    BoundaryInFront(a, t, k);
    assert c[k..] == a[k..] + t;
  }

  lemma WidenedBehind(c: Text, k: nat)
    requires |c| > MAX_CONTENT && k == CutAt(c) && Lex(c) == Rejoined(c, k)
    requires Widened(LexAll(Wrapped(c[k..])), Lex(c[k..]))
    ensures Widened(LexAll(Wrapped(c)), Lex(c))
  {
    LexAllCons(c[..k], Wrapped(c[k..]));
  }

  lemma SplitWidens(c: Text, k: nat)
    requires |c| > MAX_CONTENT && k == CutAt(c)
    requires Lex(c[..k]) == None || LastDigitSplit(c, k)
    ensures Widened(LexAll(Wrapped(c)), Lex(c))
  {
    LexAllCons(c[..k], Wrapped(c[k..]));
    if LastDigitSplit(c, k) { LexAllOne(c[k..]); }
  }

  /** A cut inside an escape was forced, and not right behind a lone backslash. */
  lemma ForcedCut(c: Text, a: Text, t: Text)
    requires Closed(a) && IsTail(t) && c == a + t && |c| > MAX_CONTENT && !Boundary(c, CutAt(c))
    ensures var k := CutAt(c); c[k - 1] == BACKSLASH ==> k < |c| && c[k] == BACKSLASH
  {
    assert c[0..] == c;
    TailHasNoSpace(t);
    SpaceIsBoundary(c, 0, -1, a, t);
  }

  lemma {:induction false} FormattedWidens(segments: seq<Text>)
    requires (forall c :: c in segments ==> Shaped(c)) && !AllClean(segments) && LexAll(segments).Some?
    ensures Widened(LexAll(Formatted(segments)), LexAll(segments))
  {
    var c, rest := segments[0], segments[1..];
    var first := if |c| <= MAX_CONTENT then [c] else Wrapped(c);
    assert segments == [c] + rest && c in segments;
    LexAllConcat(first, Formatted(rest));
    if |c| <= MAX_CONTENT { LexAllOne(c); }
    if CleanCuts(c) {
      if |c| > MAX_CONTENT { WrappedReads(c); }
      FormattedWidens(rest);
    } else {
      UncleanWidens(c);
      if AllClean(rest) { FormattedReads(rest); } else { FormattedWidens(rest); }
    }
  }

  // ---------------------------------------------------------------- the segments of a safe text

  /** No backslash in it starts an escape but those of newlines. */
  predicate Escaped(r: Text) {
    if r == [] then true
    else if r[0] != BACKSLASH then r[0] != NEWLINE && Escaped(r[1..])
    else
      && |r| > 1
      && (if SimpleEscape(r[1]).Some? then r[1] == LETTER_N && Escaped(r[2..])
          else !(r[1] == LETTER_X && |r| > 3) && Escaped(r[1..]))
  }

  lemma {:induction false} SafeIsEscaped(s: Text)
    requires Safe(s)
    ensures Escaped(Replaced(s))
  {
    if s != [] {
      SafeIsEscaped(s[1..]);
      ReplacedCons(s);
      if s[0] == NEWLINE {
        assert Replaced(s)[2..] == Replaced(s[1..]);
      } else if s[0] == BACKSLASH {
        ReplacedCons(s[1..]);
      }
    }
  }

  lemma {:induction false} SegmentsShaped(r: Text, current: Text)
    requires Closed(current) && Escaped(r)
    ensures forall c :: c in WithNul(Segments(r, current)) ==> Shaped(c)
    decreases |r|
  {
    if r == [] {
      assert Closed(current) && IsTail(NUL_ESCAPE) && current + NUL_ESCAPE == current + NUL_ESCAPE;
      assert Shaped(current + NUL_ESCAPE);
    } else if r[0] == BACKSLASH && SimpleEscape(r[1]).Some? {
      ClosedConcat(current, r[..2]);
      SegmentsShaped(r[2..], current + r[..2]);
    } else if r[0] == BACKSLASH {
      ClosedConcat(current, [BACKSLASH, BACKSLASH]);
      SegmentsShaped(r[1..], current + [BACKSLASH, BACKSLASH]);
    } else if r[0] == QUOTE {
      ClosedConcat(current, [BACKSLASH, QUOTE]);
      SegmentsShaped(r[1..], current + [BACKSLASH, QUOTE]);
    } else if r[0].Ascii? {
      ClosedConcat(current, [r[0]]);
      SegmentsShaped(r[1..], current + [r[0]]);
    } else {
      SegmentsShaped(r[1..], []);
      WideShaped(r[0].utf8, current, Segments(r[1..], []));
    }
  }

  lemma {:induction false} PlainIsSafe(s: Text)
    requires BACKSLASH !in s
    ensures Safe(s)
  {
    if s != [] { PlainIsSafe(s[1..]); }
  }

  lemma {:induction false} WideShaped(utf8: bytes, current: Text, rest: seq<Text>)
    requires utf8 != [] && Closed(current) && rest != [] && forall c :: c in WithNul(rest) ==> Shaped(c)
    ensures forall c :: c in WithNul(WideSegments(utf8, current) + rest) ==> Shaped(c)
  {
    var first := current + HexEscape(utf8[0]);
    DigitReads(utf8[0] / 16);
    DigitReads(utf8[0] % 16);
    assert IsTail(HexEscape(utf8[0])) && Shaped(first);
    if |utf8| == 1 {
      WithNulTail(first, rest);
    } else {
      WideShaped(utf8[1..], [], rest);
      var more := WideSegments(utf8[1..], []) + rest;
      assert WideSegments(utf8, current) + rest == [first] + more;
      WithNulTail(first, more);
    }
  }

  // ---------------------------------------------------------------- one entry of a data blob

  /** The lines of one text with its separator. */
  function DataLines(text: Text): seq<Text> { Formatted(WithNul(Segments(Replaced(text), []))) }

  /** `_append_string_data_entry`. */
  method AppendStringDataEntry(lines: seq<Text>, text: Text) returns (result: seq<Text>)
    ensures result == lines + DataLines(text)
  {
    var segments := EscapeCppString(text);
    var last := |segments| - 1;
    assert [] + NUL_ESCAPE == NUL_ESCAPE;
    segments := segments[..last] + [if segments[last] != [] then segments[last] + NUL_ESCAPE else NUL_ESCAPE];
    assert segments == WithNul(Segments(Replaced(text), []));
    var more := FormatCppStringLiteral(segments);
    return lines + more;
  }

  ghost predicate CutsClean(text: Text) { AllClean(WithNul(Segments(Replaced(text), []))) }

  ghost predicate Fits(text: Text) { forall c :: c in WithNul(Segments(Replaced(text), [])) ==> NoForcedCut(c) }

  /** With its cuts between escapes, an entry compiles to its text and the separator exactly if no
      backslash of the text reads as the start of an escape. */
  lemma EntryReadsIff(text: Text)
    requires CutsClean(text)
    ensures LexAll(DataLines(text)) == Some(Utf8(text) + [0]) <==> Safe(text)
  {
    var r := Replaced(text);
    FormattedReads(WithNul(Segments(r, [])));
    ReplacedHasNoNewline(text);
    SegmentsDecode(r, []);
    CatEmpty(Decoded(r));
    SurvivesIff(text);
  }

  /** A safe text compiles to itself and the separator exactly if its cuts lie between escapes. */
  lemma SafeEntryReadsIff(text: Text)
    requires Safe(text)
    ensures LexAll(DataLines(text)) == Some(Utf8(text) + [0]) <==> CutsClean(text)
  {
    if CutsClean(text) {
      EntryReadsIff(text);
    } else {
      var r := Replaced(text);
      ReplacedHasNoNewline(text);
      SegmentsDecode(r, []);
      CatEmpty(Decoded(r));
      SurvivesIff(text);
      SafeIsEscaped(text);
      SegmentsShaped(r, []);
      FormattedWidens(WithNul(Segments(r, [])));
    }
  }

  /** A text without backslashes whose long lines have spaces always compiles to itself. */
  lemma PlainEntryReads(text: Text)
    requires BACKSLASH !in text && Fits(text)
    ensures CutsClean(text) && Safe(text) && LexAll(DataLines(text)) == Some(Utf8(text) + [0])
  {
    PlainIsSafe(text);
    SafeIsEscaped(text);
    SegmentsShaped(Replaced(text), []);
    forall c | c in WithNul(Segments(Replaced(text), [])) ensures CleanCuts(c) {
      SpacesCutClean(c);
    }
    EntryReadsIff(text);
  }
}

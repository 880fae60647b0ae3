/** Which logs the guard lets through, told by what the lines so far contain, and what follows from it. */
module GuardSpec {
  import opened Wrappers
  import opened GuardLines

  // ---------------------------------------------------------------- what a log contains

  function Front(log: seq<Line>): seq<Line>
    requires log != []
  {
    log[..|log| - 1]
  }

  function Last(log: seq<Line>): Marker
    requires log != []
  {
    log[|log| - 1].marker
  }

  lemma Snoc(log: seq<Line>, line: Line)
    ensures Front(log + [line]) == log && Last(log + [line]) == line.marker
  {
  }

  /** The number of boots so far; the current boot is one less. */
  ghost function Boots(log: seq<Line>): nat {
    if log == [] then 0 else Boots(Front(log)) + if Last(log).Boot? then 1 else 0
  }

  /** The number of announced resets so far. */
  ghost function Resets(log: seq<Line>): nat {
    if log == [] then 0 else Resets(Front(log)) + if Last(log).ExpectReset? then 1 else 0
  }

  /** A reset is announced and its boot has not come. */
  ghost predicate Pending(log: seq<Line>) {
    Boots(log) > 0 && Resets(log) == Boots(log)
  }

  /** The lines that are markers of the full list. */
  ghost function FullLines(log: seq<Line>): seq<Marker> {
    if log == [] then []
    else FullLines(Front(log)) + if IsFullMarker(Last(log)) then [Last(log)] else []
  }

  /** The tracer markers since the last boot. */
  ghost function TracerLines(log: seq<Line>): seq<Marker> {
    if log == [] || Last(log).Boot? then []
    else TracerLines(Front(log)) + if IsTracerMarker(Last(log)) then [Last(log)] else []
  }

  ghost predicate InOrder(markers: seq<Marker>, kinds: seq<Kind>) {
    |markers| <= |kinds| && forall i | 0 <= i < |markers| :: KindOf(markers[i]) == kinds[i]
  }

  lemma InOrderNext(markers: seq<Marker>, m: Marker, kinds: seq<Kind>)
    ensures InOrder(markers + [m], kinds)
       <==> InOrder(markers, kinds) && |markers| < |kinds| && KindOf(m) == kinds[|markers|]
  {
    if InOrder(markers + [m], kinds) {
      assert forall i | 0 <= i < |markers| :: markers[i] == (markers + [m])[i];
      assert (markers + [m])[|markers|] == m;
    }
  }

  ghost function SlowRecords(log: seq<Line>): seq<Slow> {
    if log == [] then []
    else SlowRecords(Front(log)) + if Last(log).SlowAtomic? then [Last(log).slow] else []
  }

  /** The last summary. */
  ghost function LastSummary(log: seq<Line>): Option<Marker>
    ensures LastSummary(log).Some? ==> LastSummary(log).value.Summary?
  {
    if log == [] then None else if Last(log).Summary? then Some(Last(log)) else LastSummary(Front(log))
  }

  /** The corpus was checked during the first boot, before any reset or summary. */
  ghost predicate RawSeen(log: seq<Line>) {
    log != []
    && (RawSeen(Front(log)) || (Last(log).RawPass? && RawPhase(Front(log))))
  }

  ghost predicate RawPhase(log: seq<Line>) {
    Boots(log) == 1 && Resets(log) == 0 && LastSummary(log).None?
  }

  ghost function CancelGeneration(log: seq<Line>): Option<nat> {
    if log == [] then None
    else if Last(log).CancelPass? then Some(Last(log).cancellation.generation)
    else CancelGeneration(Front(log))
  }

  /** What has been noted: page ranges, the last two diagnostics and the EPUB stages. */
  datatype Notes = Notes(pages: seq<seq<nat>>, progress: Option<Marker>, jpeg: Option<Marker>, stages: seq<Stage>)

  ghost function NotesOf(log: seq<Line>): Notes {
    if log == [] then Notes([], None, None, []) else Note(NotesOf(Front(log)), Last(log))
  }

  function Note(n: Notes, m: Marker): Notes {
    match m
    case ProgressPage(values) => n.(pages := n.pages + [values])
    case ProgressDiagnostic(_, _, _) => n.(progress := Some(m))
    case JpegDiagnostic(_, _, _, _, _) => n.(jpeg := Some(m))
    case EpubStage(stage) => n.(stages := n.stages + [stage])
    case _ => n
  }

  ghost predicate OracleSeen(log: seq<Line>) {
    log != [] && ((Last(log).EpubOracle? && Last(log).pass == Uncached) || OracleSeen(Front(log)))
  }

  // ---------------------------------------------------------------- slow-call totals

  datatype CallClass = WriteClass | RenameClass | ReadClass

  function ClassOf(r: Slow): CallClass {
    if r.op == Rename then RenameClass else if r.mode == ReadMode then ReadClass else WriteClass
  }

  ghost function OfClass(records: seq<Slow>, c: CallClass): seq<Slow> {
    if records == [] then []
    else OfClass(records[..|records| - 1], c)
         + if ClassOf(records[|records| - 1]) == c then [records[|records| - 1]] else []
  }

  ghost function Sum(records: seq<Slow>, f: Slow -> nat): nat {
    if records == [] then 0 else Sum(records[..|records| - 1], f) + f(records[|records| - 1])
  }

  ghost function Max(records: seq<Slow>, f: Slow -> nat): nat {
    if records == [] then 0
    else
      var m, x := Max(records[..|records| - 1], f), f(records[|records| - 1]);
      if m < x then x else m
  }

  function RequestOf(r: Slow): nat { r.request }
  function CallbackOf(r: Slow): nat { r.callback }
  function NonIoOf(r: Slow): nat { r.nonio }
  function TotalOf(r: Slow): nat { r.total }

  ghost function TotalsOf(records: seq<Slow>): Totals {
    Totals(|OfClass(records, WriteClass)|, |OfClass(records, RenameClass)|, |OfClass(records, ReadClass)|,
           Sum(records, RequestOf), Sum(records, CallbackOf), Sum(records, NonIoOf),
           Max(records, TotalOf), Max(records, CallbackOf))
  }

  function Plus(t: Totals, r: Slow): Totals {
    Totals(t.writes + (if ClassOf(r) == WriteClass then 1 else 0),
           t.renames + (if ClassOf(r) == RenameClass then 1 else 0),
           t.openReads + (if ClassOf(r) == ReadClass then 1 else 0),
           t.request + r.request, t.callback + r.callback, t.nonio + r.nonio,
           if t.maxTotal < r.total then r.total else t.maxTotal,
           if t.maxCallback < r.callback then r.callback else t.maxCallback)
  }

  /** How one more record moves the totals. */
  lemma TotalsNext(records: seq<Slow>, r: Slow)
    ensures TotalsOf(records + [r]) == Plus(TotalsOf(records), r)
  {
    assert (records + [r])[..|records|] == records;
  }

  lemma {:induction false} ClassesPartition(records: seq<Slow>)
    ensures |OfClass(records, WriteClass)| + |OfClass(records, RenameClass)| + |OfClass(records, ReadClass)| == |records|
  {
    if records != [] { ClassesPartition(records[..|records| - 1]); }
  }

  lemma {:induction false} MaxIsAttained(records: seq<Slow>, f: Slow -> nat)
    ensures forall r :: r in records ==> f(r) <= Max(records, f)
    ensures records != [] ==> exists i :: 0 <= i < |records| && f(records[i]) == Max(records, f)
  {
    if records != [] {
      var n := |records| - 1;
      MaxIsAttained(records[..n], f);
      assert records == records[..n] + [records[n]];
      if Max(records, f) != f(records[n]) {
        var i :| 0 <= i < n && f(records[..n][i]) == Max(records[..n], f);
        assert f(records[i]) == Max(records, f);
      }
    }
  }

  /** The operation of the first record with this callback time. */
  ghost function FirstOperation(records: seq<Slow>, callback: nat): Option<Operation> {
    if records == [] then None
    else if records[0].callback == callback then Some(records[0].op)
    else FirstOperation(records[1..], callback)
  }

  // ---------------------------------------------------------------- which line may come next

  ghost predicate BootFits(log: seq<Line>, boot: nat) {
    boot <= UINT8_MAX && boot == Boots(log) && (Boots(log) > 0 ==> Pending(log))
  }

  const MAX_EXPECTED_RESETS := 8

  ghost predicate ResetFits(full: bool, log: seq<Line>, boot: nat) {
    && boot <= UINT8_MAX && boot + 1 == Boots(log) && !Pending(log) && Resets(log) < MAX_EXPECTED_RESETS
    && (full && boot == 0 ==> |FullLines(log)| == FULL_BOOT_ZERO_MARKER_COUNT)
  }

  ghost predicate SlowFits(log: seq<Line>, r: Slow) {
    RawSeen(log) && RawPhase(log) && RecordFits(SlowRecords(log), r)
  }

  ghost predicate RecordFits(records: seq<Slow>, r: Slow) {
    Follows(records, r) && WithinLimits(Plus(TotalsOf(records), r))
  }

  predicate Follows(records: seq<Slow>, r: Slow) {
    r.index == |records| && SlowWellFormed(r) && (records != [] ==> records[|records| - 1].slice < r.slice)
  }

  ghost predicate SummaryFits(log: seq<Line>, m: Marker)
    requires m.Summary?
  {
    var records := SlowRecords(log);
    && LastSummary(log).None?
    && 1 <= m.generation <= UINT32_MAX && 2 <= m.slices <= 256
    && (records != [] ==> records[|records| - 1].slice < m.slices)
    && m.total == |records| && m.totals == TotalsOf(records)
  }

  ghost predicate TimingFits(records: seq<Slow>, c: Cancellation) {
    if records == [] then
      c.milliseconds <= 8 && c.microseconds <= 8000 && c.callback <= c.microseconds && !c.op.UnknownOperation?
    else
      var longest, slowest := Max(records, TotalOf), Max(records, CallbackOf);
      && c.microseconds == longest && longest / 1000 <= c.milliseconds <= (longest + 999) / 1000
      && slowest <= c.callback && (c.callback <= 8000 || c.callback <= slowest)
      && (if c.callback <= 8000 then !c.op.UnknownOperation?
          else FirstOperation(records, slowest) == Some(c.op))
      && c.ioCalls >= 1 && c.ioRequest >= Max(records, RequestOf)
  }

  ghost predicate CancelFits(log: seq<Line>, c: Cancellation) {
    match LastSummary(log)
    case None => false
    case Some(summary) =>
      && 1 <= c.generation <= UINT32_MAX && c.generation == summary.generation
      && 1 <= c.steps <= 100256 && c.slices <= c.steps
      && 2 <= c.slices <= 256 && c.slices == summary.slices
      && TimingFits(SlowRecords(log), c)
      && c.ioCalls <= 32 && 1 <= c.ioRequest <= 8192
  }

  ghost predicate ResumeFits(log: seq<Line>, c: Continuation) {
    && 1 <= c.generation <= UINT32_MAX && CancelGeneration(log) == Some(c.generation)
    && c.resumed == 1 && 1 <= c.resumedSteps < c.freshSteps <= 100000
    && c.truncated == 0 && c.removed == 0
  }

  ghost predicate OracleFits(log: seq<Line>, pass: Pass, hashes: seq<nat>) {
    && |NotesOf(log).stages| == (if pass == Uncached then UNCACHED_STAGE_COUNT else EXPECTED_STAGE_COUNT)
    && hashes == EXPECTED_ORACLE
    && (pass == Cached <==> OracleSeen(log))
  }

  /** The checks of a marker of the full list. */
  ghost predicate FullMarkerValid(log: seq<Line>, m: Marker) {
    match m
    case CancelPass(c) => CancelFits(log, c)
    case ResumePass(c) => ResumeFits(log, c)
    case EpubOracle(pass, hashes) => OracleFits(log, pass, hashes)
    case _ => Witness(m)
  }

  ghost predicate InPlace(log: seq<Line>, m: Marker) {
    var i := |FullLines(log)|;
    i < FULL_MARKER_COUNT && KindOf(m) == FullMarkerAt(i) && Boots(log) == RequiredBoot(i) + 1
  }

  /** In full acceptance each listed marker must be the next of the list, on its own boot, and valid. */
  ghost predicate FullMarkerFits(log: seq<Line>, m: Marker) {
    InPlace(log, m) && FullMarkerValid(log, m)
  }

  predicate IsFull(expected: Marker) { expected.TestPass? }
  predicate IsTracer(expected: Marker) { expected.TracerPass? }

  /** A tracer marker of the first position may not come before the first boot; anything else out of
      order is only remembered until the next boot. */
  ghost predicate MarkerFits(expected: Marker, log: seq<Line>, m: Marker) {
    && (IsFull(expected) && IsFullMarker(m) ==> FullMarkerFits(log, m))
    && (IsTracer(expected) && KindOf(m) == TRACER_MARKERS[0] ==> Boots(log) > 0)
  }

  /** The lines that are only noted: nothing further is looked at in them. */
  predicate IsNoted(m: Marker) {
    m.SlowAtomic? || m.ProgressPage? || m.ProgressDiagnostic? || m.JpegDiagnostic? || m.EpubStage?
  }

  ghost predicate NotedFits(log: seq<Line>, m: Marker)
    requires IsNoted(m)
  {
    match m
    case SlowAtomic(r) => SlowFits(log, r)
    case JpegDiagnostic(_, _, _, _, _) => NotesOf(log).jpeg.None? && DiagnosticInBounds(m)
    case EpubStage(stage) =>
      |NotesOf(log).stages| < EXPECTED_STAGE_COUNT && stage == ExpectedStage(|NotesOf(log).stages|)
    case _ => DiagnosticInBounds(m)
  }

  predicate IsTerminal(expected: Marker, m: Marker) { m == expected && !IsNoted(m) }

  /** What must be true of the log, with the expected line itself, for that line to end it. */
  ghost predicate MayEnd(expected: Marker, log: seq<Line>) {
    && !Pending(log)
    && (IsTracer(expected) ==> |TracerLines(log)| == |TRACER_MARKERS| && InOrder(TracerLines(log), TRACER_MARKERS))
    && (IsFull(expected) ==> |FullLines(log)| == FULL_MARKER_COUNT && Resets(log) == 1 && Boots(log) == 2)
  }

  /** Whether the line may follow the log. */
  ghost predicate Fits(expected: Marker, log: seq<Line>, line: Line) {
    if IsNoted(line.marker) then NotedFits(log, line.marker)
    else
      && GateFits(log, line) && MoveFits(expected, log, line.marker)
      && (IsTerminal(expected, line.marker) ==> MayEnd(expected, log + [line]))
  }

  ghost predicate GateFits(log: seq<Line>, line: Line) {
    && !line.marker.Malformed? && !line.marker.SliceBudgetFail? && !line.alarm
    && (line.marker.Summary? ==> SummaryFits(log, line.marker))
  }

  ghost predicate MoveFits(expected: Marker, log: seq<Line>, m: Marker) {
    TurnFits(IsFull(expected), log, m) && MarkerFits(expected, log, m)
  }

  ghost predicate TurnFits(full: bool, log: seq<Line>, m: Marker) {
    (m.Boot? ==> BootFits(log, m.boot)) && (m.ExpectReset? ==> ResetFits(full, log, m.boot))
  }

  /** Every line of the log fitted when it came. */
  ghost predicate Clean(expected: Marker, log: seq<Line>) {
    log == [] || (Clean(expected, Front(log)) && Fits(expected, Front(log), log[|log| - 1]))
  }

  /** The log ends with its terminal line and every line fitted. */
  ghost predicate Accepted(expected: Marker, log: seq<Line>) {
    log != [] && Clean(expected, log) && IsTerminal(expected, Last(log))
  }
}

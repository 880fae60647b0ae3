/** The log guard itself: it keeps running counts and decides on each line as it comes. */
module OutputGuard {
  import opened Wrappers
  import opened GuardLines
  import opened GuardSpec
  import opened GuardTheorems

  datatype Verdict = Rejected | Passed | Ended

  class Guard {
    const expected: Marker
    ghost var log: seq<Line>
    var lastBoot: Option<nat>
    var pendingReset: Option<nat>
    var resetCount: nat
    var markerIndex: nat
    var sequenceError: bool
    var epubOracle: Option<seq<nat>>
    var cancellationGeneration: Option<nat>
    var slowRecords: seq<Slow>
    var slowSlices: seq<nat>
    var slowWrites: nat
    var slowRenames: nat
    var slowOpenReads: nat
    var slowRequestBytes: nat
    var slowCallback: nat
    var slowNonIo: nat
    var slowMaxTotal: nat
    var slowMaxCallback: nat
    var slowSummary: Option<Marker>
    var rawSeen: bool
    var pageRanges: seq<seq<nat>>
    var progressDiagnostic: Option<Marker>
    var jpegDiagnostic: Option<Marker>
    var stageIndex: nat
    var lastStage: Option<Stage>

    constructor (expected: Marker)
      ensures this.expected == expected && log == [] && Valid()
    {
      this.expected := expected;
      log := [];
      lastBoot, pendingReset, resetCount := None, None, 0;
      markerIndex, sequenceError := 0, false;
      epubOracle, cancellationGeneration := None, None;
      slowRecords, slowSlices := [], [];
      slowWrites, slowRenames, slowOpenReads := 0, 0, 0;
      slowRequestBytes, slowCallback, slowNonIo := 0, 0, 0;
      slowMaxTotal, slowMaxCallback := 0, 0;
      slowSummary, rawSeen := None, false;
      pageRanges, progressDiagnostic, jpegDiagnostic := [], None, None;
      stageIndex, lastStage := 0, None;
    }

    // -------------------------------------------------------------- what the fields stand for

    ghost predicate BootsMatch(l: seq<Line>)
      reads this`lastBoot, this`pendingReset, this`resetCount
    {
      && lastBoot == (if Boots(l) == 0 then None else Some(Boots(l) - 1))
      && pendingReset == (if Pending(l) then Some(Boots(l) - 1) else None)
      && resetCount == Resets(l)
      && (Resets(l) == Boots(l) || Resets(l) + 1 == Boots(l))
    }

    ghost predicate MarkersMatch(l: seq<Line>)
      reads this`markerIndex, this`sequenceError
    {
      && (IsFull(expected) ==> markerIndex == |FullLines(l)|)
      && (IsTracer(expected) ==>
            && (sequenceError <==> !InOrder(TracerLines(l), TRACER_MARKERS))
            && (!sequenceError ==> markerIndex == |TracerLines(l)|)
            && (Boots(l) == 0 ==> markerIndex == 0))
    }

    ghost predicate SlowMatch(l: seq<Line>)
      reads this`slowRecords, this`slowSlices
      reads this`slowWrites, this`slowRenames, this`slowOpenReads, this`slowRequestBytes, this`slowCallback
      reads this`slowNonIo, this`slowMaxTotal, this`slowMaxCallback
    {
      slowRecords == SlowRecords(l) && SlicesMatch() && Held() == TotalsOf(slowRecords)
    }

    ghost predicate SlicesMatch()
      reads this`slowRecords, this`slowSlices
    {
      |slowSlices| == |slowRecords| && forall i | 0 <= i < |slowSlices| :: slowSlices[i] == slowRecords[i].slice
    }

    /** The running totals. */
    ghost function Held(): Totals
      reads this`slowWrites, this`slowRenames, this`slowOpenReads, this`slowRequestBytes, this`slowCallback
      reads this`slowNonIo, this`slowMaxTotal, this`slowMaxCallback
    {
      Totals(slowWrites, slowRenames, slowOpenReads, slowRequestBytes, slowCallback, slowNonIo, slowMaxTotal, slowMaxCallback)
    }

    ghost predicate PhaseMatches(l: seq<Line>)
      reads this`slowSummary, this`rawSeen
    {
      slowSummary == LastSummary(l) && rawSeen == RawSeen(l)
    }

    ghost predicate WitnessesMatch(l: seq<Line>)
      reads this`epubOracle, this`cancellationGeneration
    {
      IsFull(expected) ==>
        && cancellationGeneration == CancelGeneration(l)
        && epubOracle == if OracleSeen(l) then Some(EXPECTED_ORACLE) else None
    }

    ghost predicate NotesMatch(l: seq<Line>)
      reads this`pageRanges, this`progressDiagnostic, this`jpegDiagnostic, this`stageIndex, this`lastStage
    {
      var n := NotesOf(l);
      && pageRanges == n.pages && progressDiagnostic == n.progress && jpegDiagnostic == n.jpeg
      && stageIndex == |n.stages| && lastStage == if n.stages == [] then None else Some(n.stages[|n.stages| - 1])
    }

    ghost predicate Matches(l: seq<Line>)
      reads this
    {
      BootsMatch(l) && MarkersMatch(l) && SlowMatch(l) && PhaseMatches(l) && WitnessesMatch(l) && NotesMatch(l)
    }

    /** Every line of the log fitted, and the fields hold what the log contains. */
    ghost predicate Valid()
      reads this
    {
      Clean(expected, log) && Matches(log)
    }

    // -------------------------------------------------------------- slow storage calls

    method NoteRaw(line: Line)
      requires BootsMatch(log) && PhaseMatches(log)
      modifies this`rawSeen
      ensures rawSeen == RawSeen(log + [line])
    {
      Snoc(log, line);
      if line.marker.RawPass? && lastBoot == Some(0) && pendingReset.None? && slowSummary.None? {
        rawSeen := true;
      }
    }

    method CountClass(r: Slow)
      requires AllowedKind(r)
      modifies this`slowWrites, this`slowRenames, this`slowOpenReads
      ensures slowWrites == old(slowWrites) + if ClassOf(r) == WriteClass then 1 else 0
      ensures slowRenames == old(slowRenames) + if ClassOf(r) == RenameClass then 1 else 0
      ensures slowOpenReads == old(slowOpenReads) + if ClassOf(r) == ReadClass then 1 else 0
    {
      if r.op == Write || r.op == Remove || (r.op == Open && r.mode != ReadMode) || (r.op == Multiple && r.mode != ReadMode) {
        slowWrites := slowWrites + 1;
      }
      if r.op == Rename {
        slowRenames := slowRenames + 1;
      }
      if (r.op == Open && r.mode == ReadMode) || (r.op == Multiple && r.mode == ReadMode) {
        slowOpenReads := slowOpenReads + 1;
      }
    }

    method AddTotals(r: Slow)
      requires AllowedKind(r)
      modifies this`slowWrites, this`slowRenames, this`slowOpenReads, this`slowRequestBytes, this`slowCallback
      modifies this`slowNonIo, this`slowMaxTotal, this`slowMaxCallback
      ensures Held() == Plus(old(Held()), r)
    {
      CountClass(r);
      slowRequestBytes := slowRequestBytes + r.request;
      slowCallback := slowCallback + r.callback;
      slowNonIo := slowNonIo + r.nonio;
      slowMaxTotal := if slowMaxTotal < r.total then r.total else slowMaxTotal;
      slowMaxCallback := if slowMaxCallback < r.callback then r.callback else slowMaxCallback;
    }

    method InSlowPhase() returns (r: bool)
      requires BootsMatch(log) && PhaseMatches(log)
      ensures r <==> RawSeen(log) && RawPhase(log)
    {
      return lastBoot == Some(0) && rawSeen && pendingReset.None? && slowSummary.None?;
    }

    method InOrderRecord(r: Slow) returns (ok: bool)
      requires SlicesMatch()
      ensures ok <==> Follows(slowRecords, r)
    {
      return r.index == |slowRecords| && SlowWellFormed(r)
             && (slowSlices == [] || slowSlices[|slowSlices| - 1] < r.slice);
    }

    method WithinAllLimits() returns (ok: bool)
      requires Held() == TotalsOf(slowRecords)
      ensures ok <==> WithinLimits(Held())
    {
      ClassesPartition(slowRecords);
      return !(|slowRecords| > MAX_TOTAL || slowWrites > MAX_WRITES || slowRenames > MAX_RENAMES
               || slowOpenReads > MAX_OPEN_READS || slowRequestBytes > 3072 || slowCallback > 550000 || slowNonIo > 5000);
    }

    method RecordSlow(r: Slow) returns (ok: bool)
      requires SlicesMatch() && Held() == TotalsOf(slowRecords)
      modifies this`slowRecords, this`slowSlices
      modifies this`slowWrites, this`slowRenames, this`slowOpenReads, this`slowRequestBytes, this`slowCallback
      modifies this`slowNonIo, this`slowMaxTotal, this`slowMaxCallback
      ensures ok <==> RecordFits(old(slowRecords), r)
      ensures ok ==> slowRecords == old(slowRecords) + [r] && SlicesMatch() && Held() == TotalsOf(slowRecords)
    {
      ok := InOrderRecord(r);
      if !ok {
        return false;
      }
      TotalsNext(slowRecords, r);
      AddTotals(r);
      slowRecords := slowRecords + [r];
      slowSlices := slowSlices + [r.slice];
      ok := WithinAllLimits();
    }

    method AcceptSlow(line: Line, r: Slow) returns (ok: bool)
      requires BootsMatch(log) && SlowMatch(log) && PhaseMatches(log) && line.marker == SlowAtomic(r)
      modifies this`slowRecords, this`slowSlices
      modifies this`slowWrites, this`slowRenames, this`slowOpenReads, this`slowRequestBytes, this`slowCallback
      modifies this`slowNonIo, this`slowMaxTotal, this`slowMaxCallback
      ensures ok <==> SlowFits(log, r)
      ensures ok ==> SlowMatch(log + [line])
    {
      Snoc(log, line);
      ok := InSlowPhase();
      if ok {
        ok := RecordSlow(r);
      }
    }

    method AcceptSummary(line: Line) returns (ok: bool)
      requires SlowMatch(log) && slowSummary == LastSummary(log) && line.marker.Summary?
      modifies this`slowSummary
      ensures ok <==> SummaryFits(log, line.marker)
      ensures ok ==> slowSummary == LastSummary(log + [line])
    {
      Snoc(log, line);
      var m := line.marker;
      if slowSummary.Some? || !(1 <= m.generation <= UINT32_MAX) || !(2 <= m.slices <= 256)
         || (slowSlices != [] && slowSlices[|slowSlices| - 1] >= m.slices)
         || m.total != |slowRecords| || m.totals.writes != slowWrites || m.totals.renames != slowRenames
         || m.totals.openReads != slowOpenReads || m.totals.request != slowRequestBytes
         || m.totals.callback != slowCallback || m.totals.nonio != slowNonIo
         || m.totals.maxTotal != slowMaxTotal || m.totals.maxCallback != slowMaxCallback {
        return false;
      }
      slowSummary := Some(m);
      return true;
    }

    // -------------------------------------------------------------- lines that are only noted

    method Note(line: Line) returns (ok: bool)
      requires NotesMatch(log) && IsNoted(line.marker) && !line.marker.SlowAtomic?
      modifies this`pageRanges, this`progressDiagnostic, this`jpegDiagnostic, this`stageIndex, this`lastStage
      ensures ok <==> NotedFits(log, line.marker)
      ensures ok ==> NotesMatch(log + [line])
    {
      Snoc(log, line);
      var m := line.marker;
      if m.EpubStage? {
        if stageIndex >= EXPECTED_STAGE_COUNT || m.stage != ExpectedStage(stageIndex) {
          return false;
        }
        stageIndex := stageIndex + 1;
        lastStage := Some(m.stage);
        return true;
      }
      if !DiagnosticInBounds(m) || (m.JpegDiagnostic? && jpegDiagnostic.Some?) {
        return false;
      }
      if m.ProgressPage? {
        pageRanges := pageRanges + [m.values];
      } else if m.ProgressDiagnostic? {
        progressDiagnostic := Some(m);
      } else {
        jpegDiagnostic := Some(m);
      }
      return true;
    }

    // -------------------------------------------------------------- boots and resets

    method AcceptBoot(line: Line) returns (ok: bool)
      requires BootsMatch(log) && line.marker.Boot?
      modifies this`lastBoot, this`pendingReset
      ensures ok <==> BootFits(log, line.marker.boot)
      ensures ok ==> BootsMatch(log + [line])
    {
      Snoc(log, line);
      var sequence := line.marker.boot;
      if sequence > UINT8_MAX {
        return false;
      }
      if lastBoot.None? {
        if sequence != 0 {
          return false;
        }
        lastBoot := Some(sequence);
        return true;
      }
      if pendingReset.None? || sequence != pendingReset.value + 1 {
        return false;
      }
      lastBoot := Some(sequence);
      pendingReset := None;
      return true;
    }

    method ArmReset(line: Line) returns (ok: bool)
      requires BootsMatch(log) && MarkersMatch(log) && line.marker.ExpectReset?
      modifies this`pendingReset, this`resetCount
      ensures ok <==> ResetFits(IsFull(expected), log, line.marker.boot)
      ensures ok ==> BootsMatch(log + [line])
    {
      Snoc(log, line);
      var sequence := line.marker.boot;
      if sequence > UINT8_MAX || lastBoot.None? {
        return false;
      }
      if IsFull(expected) && sequence == 0 && markerIndex != FULL_BOOT_ZERO_MARKER_COUNT {
        return false;
      }
      if pendingReset.Some? || sequence != lastBoot.value || resetCount >= MAX_EXPECTED_RESETS {
        return false;
      }
      pendingReset := Some(sequence);
      resetCount := resetCount + 1;
      return true;
    }

    // -------------------------------------------------------------- validating a marker of the full list

    method OperationOfSlowest(callback: nat) returns (op: Option<Operation>)
      ensures op == FirstOperation(slowRecords, callback)
    {
      var i := 0;
      while i < |slowRecords|
        invariant i <= |slowRecords| && FirstOperation(slowRecords, callback) == FirstOperation(slowRecords[i..], callback)
      {
        if slowRecords[i].callback == callback {
          return Some(slowRecords[i].op);
        }
        i := i + 1;
      }
      return None;
    }

    method LargestRequest() returns (request: nat)
      ensures request == Max(slowRecords, RequestOf)
    {
      request := 0;
      for i := 0 to |slowRecords|
        invariant request == Max(slowRecords[..i], RequestOf)
      {
        assert slowRecords[..i + 1][..i] == slowRecords[..i];
        request := if request < slowRecords[i].request then slowRecords[i].request else request;
      }
      assert slowRecords[..|slowRecords|] == slowRecords;
    }

    method TimingValid(c: Cancellation) returns (ok: bool)
      requires Held() == TotalsOf(slowRecords)
      ensures ok <==> TimingFits(slowRecords, c)
    {
      if slowRecords == [] {
        return c.milliseconds <= 8 && c.microseconds <= 8000 && c.callback <= c.microseconds && !c.op.UnknownOperation?;
      }
      var op := OperationOfSlowest(slowMaxCallback);
      var request := LargestRequest();
      return c.microseconds == slowMaxTotal
             && slowMaxTotal / 1000 <= c.milliseconds <= (slowMaxTotal + 999) / 1000
             && slowMaxCallback <= c.callback
             && c.callback <= (if slowMaxCallback < 8000 then 8000 else slowMaxCallback)
             && ((c.callback <= 8000 && !c.op.UnknownOperation?) || (c.callback > 8000 && op == Some(c.op)))
             && c.ioCalls >= 1 && c.ioRequest >= request;
    }

    method CancelValid(c: Cancellation) returns (ok: bool)
      requires SlowMatch(log) && slowSummary == LastSummary(log)
      ensures ok <==> CancelFits(log, c)
    {
      if slowSummary.None? {
        return false;
      }
      var timing := TimingValid(c);
      return !(!(1 <= c.generation <= UINT32_MAX) || c.generation != slowSummary.value.generation
               || !(1 <= c.steps <= 100256) || c.steps < c.slices || c.slices > UINT16_MAX
               || !(2 <= c.slices <= 256) || c.slices != slowSummary.value.slices
               || !timing || c.ioCalls > 32 || !(1 <= c.ioRequest <= 8192));
    }

    method OracleValid(pass: Pass, hashes: seq<nat>) returns (ok: bool)
      requires IsFull(expected) && WitnessesMatch(log) && NotesMatch(log)
      modifies this`epubOracle
      ensures ok <==> OracleFits(log, pass, hashes)
      ensures ok ==> epubOracle == Some(EXPECTED_ORACLE)
    {
      if stageIndex != (if pass == Uncached then UNCACHED_STAGE_COUNT else EXPECTED_STAGE_COUNT) || hashes != EXPECTED_ORACLE {
        return false;
      }
      if pass == Uncached {
        if epubOracle.Some? {
          return false;
        }
        epubOracle := Some(hashes);
        return true;
      }
      return epubOracle.Some? && hashes == epubOracle.value;
    }

    method ValidateFullMarker(line: Line) returns (ok: bool)
      requires IsFull(expected) && WitnessesMatch(log) && NotesMatch(log) && SlowMatch(log)
      requires !line.marker.Summary? ==> slowSummary == LastSummary(log)
      modifies this`cancellationGeneration, this`epubOracle
      ensures ok <==> FullMarkerValid(log, line.marker)
      ensures !ok || WitnessesMatch(log + [line])
    {
      Snoc(log, line);
      match line.marker
      case CancelPass(c) =>
        ok := CancelValid(c);
        cancellationGeneration := Some(c.generation);
      case ResumePass(c) =>
        ok := !(!(1 <= c.generation <= UINT32_MAX) || cancellationGeneration != Some(c.generation) || c.resumed != 1
                || !(1 <= c.freshSteps <= 100000) || !(1 <= c.resumedSteps <= 100000)
                || c.resumedSteps >= c.freshSteps || c.truncated != 0 || c.removed != 0);
      case EpubOracle(pass, hashes) =>
        ok := OracleValid(pass, hashes);
      case m =>
        ok := Witness(m);
    }

    // -------------------------------------------------------------- the ordered markers

    /** A boot has already started the tracer sequence afresh when the marker is looked at. */
    ghost predicate MarkersReady(line: Line)
      reads this`markerIndex, this`sequenceError, this`log
    {
      if line.marker.Boot? then MarkersMatch(log + [line]) else MarkersMatch(log)
    }

    method AdvanceFull(line: Line) returns (ok: bool)
      requires IsFull(expected) && MarkersReady(line) && BootsMatch(log + [line])
      modifies this`markerIndex
      ensures ok <==> (IsFullMarker(line.marker) ==> InPlace(log, line.marker))
      ensures !ok || MarkersMatch(log + [line])
    {
      Snoc(log, line);
      if markerIndex < FULL_MARKER_COUNT && KindOf(line.marker) == FullMarkerAt(markerIndex) {
        if lastBoot.None? || lastBoot.value != RequiredBoot(markerIndex) {
          return false;
        }
        markerIndex := markerIndex + 1;
        return true;
      }
      return !IsFullMarker(line.marker);
    }

    lemma UnlistedIsValid(m: Marker)
      ensures IsFullMarker(m) || FullMarkerValid(log, m)
    {
    }

    method AcceptFullMarker(line: Line) returns (ok: bool)
      requires IsFull(expected) && MarkersReady(line) && BootsMatch(log + [line])
      requires WitnessesMatch(log) && NotesMatch(log) && SlowMatch(log)
      requires !line.marker.Summary? ==> slowSummary == LastSummary(log)
      modifies this`cancellationGeneration, this`epubOracle, this`markerIndex
      ensures ok <==> MarkerFits(expected, log, line.marker)
      ensures !ok || (MarkersMatch(log + [line]) && WitnessesMatch(log + [line]))
    {
      UnlistedIsValid(line.marker);
      ok := ValidateFullMarker(line);
      if ok {
        ok := AdvanceFull(line);
      }
    }

    method AcceptTracerMarker(line: Line) returns (ok: bool)
      requires IsTracer(expected) && MarkersReady(line) && BootsMatch(log + [line])
      modifies this`markerIndex, this`sequenceError
      ensures ok <==> MarkerFits(expected, log, line.marker)
      ensures ok ==> MarkersMatch(log + [line])
    {
      Snoc(log, line);
      var k := KindOf(line.marker);
      InOrderNext(TracerLines(log), line.marker, TRACER_MARKERS);
      if markerIndex < |TRACER_MARKERS| && k == TRACER_MARKERS[markerIndex] {
        if lastBoot.None? {
          return false;
        }
        markerIndex := markerIndex + 1;
        return true;
      }
      if IsTracerMarker(line.marker) {
        sequenceError := true;
      }
      return true;
    }

    // -------------------------------------------------------------- one line

    /** What a line leaves as it was. */
    lemma Untouched(line: Line)
      ensures BootsMatch(log) && !line.marker.Boot? && !line.marker.ExpectReset? ==> BootsMatch(log + [line])
      ensures SlowMatch(log) && !line.marker.SlowAtomic? ==> SlowMatch(log + [line])
      ensures NotesMatch(log) && (line.marker.SlowAtomic? || !IsNoted(line.marker)) ==> NotesMatch(log + [line])
      ensures LastSummary(log + [line]) == if line.marker.Summary? then Some(line.marker) else LastSummary(log)
    {
      Snoc(log, line);
    }

    lemma UntouchedByUnlisted(line: Line)
      requires !IsFullMarker(line.marker) && !line.marker.Boot?
      ensures MarkersMatch(log) ==> MarkersMatch(log + [line])
      ensures WitnessesMatch(log) ==> WitnessesMatch(log + [line])
    {
      Snoc(log, line);
    }

    lemma UntouchedByNoted(line: Line)
      requires IsNoted(line.marker) && BootsMatch(log) && MarkersMatch(log) && WitnessesMatch(log)
      requires slowSummary == LastSummary(log)
      ensures BootsMatch(log + [line]) && MarkersMatch(log + [line]) && WitnessesMatch(log + [line])
      ensures slowSummary == LastSummary(log + [line])
    {
      Untouched(line);
      UntouchedByUnlisted(line);
    }

    /** A boot starts the tracer sequence afresh. */
    method TakeBoot(line: Line) returns (ok: bool)
      requires BootsMatch(log) && MarkersMatch(log)
      modifies this`lastBoot, this`pendingReset, this`resetCount, this`markerIndex, this`sequenceError
      ensures ok <==> TurnFits(IsFull(expected), log, line.marker)
      ensures ok ==> BootsMatch(log + [line]) && MarkersReady(line)
    {
      Snoc(log, line);
      Untouched(line);
      ok := true;
      if line.marker.Boot? {
        ok := AcceptBoot(line);
        if IsTracer(expected) {
          markerIndex, sequenceError := 0, false;
        }
      }
      if line.marker.ExpectReset? {
        ok := ArmReset(line);
      }
    }

    method AcceptMarker(line: Line) returns (ok: bool)
      requires MarkersReady(line) && BootsMatch(log + [line])
      requires WitnessesMatch(log) && NotesMatch(log) && SlowMatch(log)
      requires !line.marker.Summary? ==> slowSummary == LastSummary(log)
      modifies this`cancellationGeneration, this`epubOracle, this`markerIndex, this`sequenceError
      ensures ok <==> MarkerFits(expected, log, line.marker)
      ensures ok ==> MarkersMatch(log + [line]) && WitnessesMatch(log + [line])
    {
      if IsFull(expected) {
        ok := AcceptFullMarker(line);
      } else if IsTracer(expected) {
        ok := AcceptTracerMarker(line);
      } else {
        ok := true;
      }
    }

    method MayEndHere(line: Line) returns (ok: bool)
      requires BootsMatch(log + [line]) && MarkersMatch(log + [line])
      ensures ok <==> MayEnd(expected, log + [line])
    {
      if pendingReset.Some? {
        return false;
      }
      if IsTracer(expected) && (sequenceError || markerIndex != |TRACER_MARKERS|) {
        return false;
      }
      if IsFull(expected) && (markerIndex != FULL_MARKER_COUNT || resetCount != 1 || lastBoot != Some(1)) {
        return false;
      }
      return true;
    }

    method PassGate(line: Line) returns (ok: bool)
      requires SlowMatch(log) && slowSummary == LastSummary(log)
      modifies this`slowSummary
      ensures ok <==> GateFits(log, line)
      ensures ok ==> slowSummary == LastSummary(log + [line])
      ensures !line.marker.Summary? ==> slowSummary == LastSummary(log)
    {
      Untouched(line);
      ok := true;
      if line.marker.Summary? {
        ok := AcceptSummary(line);
      }
      if line.marker.SliceBudgetFail? || line.marker.Malformed? || line.alarm {
        ok := false;
      }
    }

    method Move(line: Line) returns (ok: bool)
      requires BootsMatch(log) && MarkersMatch(log) && SlowMatch(log) && WitnessesMatch(log) && NotesMatch(log)
      requires !line.marker.Summary? ==> slowSummary == LastSummary(log)
      modifies this`lastBoot, this`pendingReset, this`resetCount, this`markerIndex, this`sequenceError
      modifies this`cancellationGeneration, this`epubOracle
      ensures ok <==> MoveFits(expected, log, line.marker)
      ensures !ok || (BootsMatch(log + [line]) && MarkersMatch(log + [line]) && WitnessesMatch(log + [line]))
    {
      ok := TakeBoot(line);
      if ok {
        ok := AcceptMarker(line);
      }
    }

    method InspectPlain(line: Line) returns (v: Verdict)
      requires BootsMatch(log) && MarkersMatch(log) && SlowMatch(log) && WitnessesMatch(log) && NotesMatch(log)
      requires slowSummary == LastSummary(log) && !IsNoted(line.marker)
      modifies this`slowSummary, this`lastBoot, this`pendingReset, this`resetCount, this`markerIndex, this`sequenceError
      modifies this`cancellationGeneration, this`epubOracle
      ensures v.Rejected? <==> !Fits(expected, log, line)
      ensures v.Rejected? || (BootsMatch(log + [line]) && MarkersMatch(log + [line]) && WitnessesMatch(log + [line]))
      ensures !v.Rejected? ==> slowSummary == LastSummary(log + [line])
      ensures v.Ended? <==> !v.Rejected? && IsTerminal(expected, line.marker)
    {
      var ok := PassGate(line);
      if !ok {
        return Rejected;
      }
      ok := Move(line);
      if !ok {
        return Rejected;
      }
      if line.marker == expected {
        ok := MayEndHere(line);
        return if ok then Ended else Rejected;
      }
      return Passed;
    }

    /** Takes the line into the log unless it was rejected. */
    ghost method Append(line: Line, v: Verdict)
      requires Clean(expected, log)
      requires v.Rejected? || Fits(expected, log, line)
      requires v.Rejected? || Matches(log + [line])
      modifies this`log
      ensures v.Rejected? || Valid()
      ensures log == if v.Rejected? then old(log) else old(log) + [line]
    {
      if !v.Rejected? {
        Snoc(log, line);
        log := log + [line];
      }
    }

    /** The fields before a line, once the corpus flag has taken it in. */
    ghost predicate Ready(line: Line)
      reads this
    {
      && BootsMatch(log) && MarkersMatch(log) && SlowMatch(log) && WitnessesMatch(log) && NotesMatch(log)
      && slowSummary == LastSummary(log) && rawSeen == RawSeen(log + [line])
    }

    method JudgeSlow(line: Line) returns (ok: bool)
      requires Ready(line) && line.marker.SlowAtomic?
      modifies this
      ensures log == old(log)
      ensures ok <==> SlowFits(log, line.marker.slow)
      ensures !ok || Matches(log + [line])
    {
      UntouchedByNoted(line);
      Snoc(log, line);
      Untouched(line);
      ok := AcceptSlow(line, line.marker.slow);
    }

    method JudgeNote(line: Line) returns (ok: bool)
      requires Ready(line) && IsNoted(line.marker) && !line.marker.SlowAtomic?
      modifies this
      ensures log == old(log)
      ensures ok <==> NotedFits(log, line.marker)
      ensures !ok || Matches(log + [line])
    {
      UntouchedByNoted(line);
      Untouched(line);
      ok := Note(line);
    }

    method JudgePlain(line: Line) returns (v: Verdict)
      requires Ready(line) && !IsNoted(line.marker)
      modifies this
      ensures log == old(log)
      ensures v.Rejected? <==> !Fits(expected, log, line)
      ensures v.Rejected? || Matches(log + [line])
      ensures v.Ended? <==> !v.Rejected? && IsTerminal(expected, line.marker)
    {
      Untouched(line);
      v := InspectPlain(line);
    }

    method Judge(line: Line) returns (v: Verdict)
      requires Matches(log)
      modifies this
      ensures log == old(log)
      ensures v.Rejected? <==> !Fits(expected, log, line)
      ensures v.Rejected? || Matches(log + [line])
      ensures v.Ended? <==> !v.Rejected? && IsTerminal(expected, line.marker)
    {
      NoteRaw(line);
      if line.marker.SlowAtomic? {
        var ok := JudgeSlow(line);
        v := if ok then Passed else Rejected;
      } else if IsNoted(line.marker) {
        var ok := JudgeNote(line);
        v := if ok then Passed else Rejected;
      } else {
        v := JudgePlain(line);
      }
    }

    /** Decides on one line: it is rejected exactly if it does not fit the log, and ends the run exactly
        if it is the expected one. A rejected line ends the run; nothing is promised about the fields then. */
    method Inspect(line: Line) returns (v: Verdict)
      requires Valid()
      modifies this
      ensures v.Rejected? == !Fits(expected, old(log), line)
      ensures v.Rejected? || Valid()
      ensures !v.Rejected? ==> log == old(log) + [line]
      ensures v.Ended? <==> !v.Rejected? && IsTerminal(expected, line.marker)
    {
      v := Judge(line);
      Append(line, v);
    }
  }

  // ---------------------------------------------------------------- a whole run

  /** Some beginning of the lines is an accepted log, and no line before its end would end the run. */
  ghost predicate Accepts(expected: Marker, lines: seq<Line>, n: nat) {
    && n <= |lines| && Accepted(expected, lines[..n])
    && forall k | 0 <= k < n - 1 :: !IsTerminal(expected, lines[k].marker)
  }

  /** Feeds the lines to a fresh guard until one is rejected or ends the run; passes exactly if some
      beginning of the lines is an accepted log. */
  method Monitor(expected: Marker, lines: seq<Line>) returns (passed: bool)
    ensures passed <==> exists n: nat :: Accepts(expected, lines, n)
  {
    var guard := new Guard(expected);
    var i := 0;
    while i < |lines|
      invariant i <= |lines| && guard.Valid() && guard.expected == expected && guard.log == lines[..i]
      invariant fresh(guard)
      invariant forall k | 0 <= k < i :: !IsTerminal(expected, lines[k].marker)
    {
      var v := Feed(guard, lines, i);
      if v.Rejected? {
        NoAcceptanceAfter(expected, lines, i);
        return false;
      }
      if v.Ended? {
        EndedHere(expected, lines, i + 1);
        return true;
      }
      i := i + 1;
    }
    NoTerminalLine(expected, lines);
    return false;
  }

  lemma EndedHere(expected: Marker, lines: seq<Line>, n: nat)
    requires n <= |lines| && Accepted(expected, lines[..n])
    requires forall k | 0 <= k < n - 1 :: !IsTerminal(expected, lines[k].marker)
    ensures exists m: nat :: Accepts(expected, lines, m)
  {
    assert Accepts(expected, lines, n);
  }

  method Feed(guard: Guard, lines: seq<Line>, i: nat) returns (v: Verdict)
    requires i < |lines| && guard.Valid() && guard.log == lines[..i]
    modifies guard
    ensures v.Rejected? ==> !Fits(guard.expected, lines[..i], lines[i])
    ensures v.Rejected? || (guard.Valid() && guard.log == lines[..i + 1])
    ensures v.Ended? <==> !v.Rejected? && IsTerminal(guard.expected, lines[i].marker)
    ensures v.Ended? ==> Accepted(guard.expected, lines[..i + 1])
  {
    OneMoreLine(lines, i);
    v := guard.Inspect(lines[i]);
  }

  lemma OneMoreLine(lines: seq<Line>, i: nat)
    requires i < |lines|
    ensures lines[..i + 1] == lines[..i] + [lines[i]] && Last(lines[..i + 1]) == lines[i].marker
  {
  }

  lemma NoTerminalLine(expected: Marker, lines: seq<Line>)
    requires forall k | 0 <= k < |lines| :: !IsTerminal(expected, lines[k].marker)
    ensures forall k: nat :: !Accepts(expected, lines, k)
  {
    forall k: nat ensures !Accepts(expected, lines, k) {
      if 0 < k <= |lines| { assert Last(lines[..k]) == lines[k - 1].marker; }
    }
  }

  lemma NoAcceptanceAfter(expected: Marker, lines: seq<Line>, i: nat)
    requires i < |lines| && !Fits(expected, lines[..i], lines[i])
    requires forall k | 0 <= k < i :: !IsTerminal(expected, lines[k].marker)
    ensures forall k :: !Accepts(expected, lines, k)
  {
    forall k: nat ensures !Accepts(expected, lines, k) {
      if 0 < k <= |lines| {
        assert Last(lines[..k]) == lines[k - 1].marker;
        if i < k && Clean(expected, lines[..k]) {
          assert lines[..k][..i] == lines[..i];
          CleanPrefix(expected, lines[..k], i);
        }
      }
    }
  }
}

/** What every log the guard lets through has in common. */
module GuardTheorems {
  import opened Wrappers
  import opened GuardLines
  import opened GuardSpec

  // ---------------------------------------------------------------- boots and resets

  /** Boots and announced resets stay in lockstep, never more than one apart. */
  lemma {:induction false} Lockstep(expected: Marker, log: seq<Line>)
    requires Clean(expected, log)
    ensures if Boots(log) == 0 then Resets(log) == 0 else Resets(log) == Boots(log) || Resets(log) == Boots(log) - 1
    ensures Resets(log) <= MAX_EXPECTED_RESETS
  {
    if log != [] { Lockstep(expected, Front(log)); }
  }

  lemma FrontPrefix(log: seq<Line>, k: nat)
    requires k < |log|
    ensures Front(log[..k + 1]) == log[..k] && Last(log[..k + 1]) == log[k].marker && Front(log)[..k] == log[..k]
  {
  }

  lemma {:induction false} CleanPrefix(expected: Marker, log: seq<Line>, k: nat)
    requires Clean(expected, log) && k <= |log|
    ensures Clean(expected, log[..k])
    ensures k == |log| || Fits(expected, log[..k], log[k])
  {
    if k == |log| {
      assert log[..k] == log;
    } else if k == |log| - 1 {
      assert log[..k] == Front(log);
    } else {
      CleanPrefix(expected, Front(log), k);
      assert Front(log)[..k] == log[..k];
    }
  }

  /** All counts grow along the log. */
  lemma {:induction false} Growing(log: seq<Line>, i: nat, j: nat)
    requires i <= j <= |log|
    ensures Boots(log[..i]) <= Boots(log[..j]) && Resets(log[..i]) <= Resets(log[..j])
    ensures FullLines(log[..i]) <= FullLines(log[..j])
    decreases j - i
  {
    if i < j {
      Growing(log, i, j - 1);
      FrontPrefix(log, j - 1);
    }
  }

  /** Every boot and every announced reset was the one due. */
  ghost predicate BootsFit(full: bool, log: seq<Line>) {
    forall k | 0 <= k < |log| ::
      && (log[k].marker.Boot? ==> BootFits(log[..k], log[k].marker.boot))
      && (log[k].marker.ExpectReset? ==> ResetFits(full, log[..k], log[k].marker.boot))
  }

  /** Every listed marker had the place due, on its own boot. */
  ghost predicate PlacesFit(log: seq<Line>) {
    forall k | 0 <= k < |log| && IsFullMarker(log[k].marker) :: InPlace(log[..k], log[k].marker)
  }

  /** No summary and no slow record came after a summary. */
  ghost predicate SummariesFit(log: seq<Line>) {
    forall k | 0 <= k < |log| && (log[k].marker.Summary? || log[k].marker.SlowAtomic?) :: LastSummary(log[..k]).None?
  }

  lemma CleanFits(expected: Marker, log: seq<Line>)
    requires Clean(expected, log)
    ensures BootsFit(IsFull(expected), log) && SummariesFit(log)
    ensures IsFull(expected) ==> PlacesFit(log)
  {
    forall k | 0 <= k < |log|
      ensures log[k].marker.Boot? ==> BootFits(log[..k], log[k].marker.boot)
      ensures log[k].marker.ExpectReset? ==> ResetFits(IsFull(expected), log[..k], log[k].marker.boot)
      ensures log[k].marker.Summary? || log[k].marker.SlowAtomic? ==> LastSummary(log[..k]).None?
      ensures IsFull(expected) && IsFullMarker(log[k].marker) ==> InPlace(log[..k], log[k].marker)
    {
      CleanPrefix(expected, log, k);
    }
  }

  // ---------------------------------------------------------------- slow storage calls

  /** The records are numbered, their slices strictly increase, and each is of an allowed kind. */
  ghost predicate SlowListed(records: seq<Slow>) {
    && (forall i | 0 <= i < |records| :: records[i].index == i && SlowWellFormed(records[i]))
    && (forall i, j | 0 <= i < j < |records| :: records[i].slice < records[j].slice)
    && (records != [] ==> WithinLimits(TotalsOf(records)))
  }

  lemma {:induction false} SlowAlways(expected: Marker, log: seq<Line>)
    requires Clean(expected, log)
    ensures SlowListed(SlowRecords(log))
  {
    if log != [] {
      SlowAlways(expected, Front(log));
      if Last(log).SlowAtomic? {
        var records := SlowRecords(Front(log));
        SlowNext(records, Last(log).slow);
      } else {
        assert SlowRecords(Front(log)) + [] == SlowRecords(Front(log));
      }
    }
  }

  lemma SlowNext(records: seq<Slow>, r: Slow)
    requires SlowListed(records) && RecordFits(records, r)
    ensures SlowListed(records + [r])
  {
    TotalsNext(records, r);
    var n := |records| - 1;
    forall i | 0 <= i <= n ensures records[i].slice < r.slice {
      if i < n { assert records[i].slice < records[n].slice; }
    }
  }

  /** The three ceilings per class give the ceiling on all records. */
  lemma AtMostThirtyTwo(expected: Marker, log: seq<Line>)
    requires Clean(expected, log)
    ensures |SlowRecords(log)| <= MAX_TOTAL
  {
    SlowAlways(expected, log);
    ClassesPartition(SlowRecords(log));
  }

  /** A summary repeats the true counts, sums and maxima of all slow records; none follows it. */
  lemma SummaryIsFinal(expected: Marker, log: seq<Line>, k: nat)
    requires Clean(expected, log) && k < |log| && log[k].marker.Summary?
    ensures SummaryFits(log[..k], log[k].marker) && SlowRecords(log[..k]) == SlowRecords(log)
    ensures LastSummary(log) == Some(log[k].marker)
    ensures forall j | 0 <= j < |log| && log[j].marker.Summary? :: j == k
  {
    CleanPrefix(expected, log, k);
    CleanFits(expected, log);
    SummaryStays(log, k);
  }

  lemma SummaryStays(log: seq<Line>, k: nat)
    requires SummariesFit(log) && k < |log| && log[k].marker.Summary?
    ensures SlowRecords(log[..k]) == SlowRecords(log) && LastSummary(log) == Some(log[k].marker)
    ensures forall j | 0 <= j < |log| && log[j].marker.Summary? :: j == k
  {
    SummaryStaysUntil(log, k, |log|);
    assert log[..|log|] == log;
    forall j | 0 <= j < |log| && log[j].marker.Summary? ensures j == k {
      if j < k { SummaryStaysUntil(log, j, k); } else if k < j { SummaryStaysUntil(log, k, j); }
    }
  }

  lemma {:induction false} SummaryStaysUntil(log: seq<Line>, k: nat, j: nat)
    requires SummariesFit(log) && k < j <= |log| && log[k].marker.Summary?
    ensures SlowRecords(log[..j]) == SlowRecords(log[..k]) && LastSummary(log[..j]) == Some(log[k].marker)
    decreases j
  {
    FrontPrefix(log, j - 1);
    if k < j - 1 { SummaryStaysUntil(log, k, j - 1); }
  }

  // ---------------------------------------------------------------- full acceptance

  /** The listed markers come in the order of the list. */
  lemma {:induction false} FullInOrder(expected: Marker, log: seq<Line>)
    requires IsFull(expected) && Clean(expected, log)
    ensures InOrder(FullLines(log), FULL_MARKERS)
  {
    CleanFits(expected, log);
    PlacesInOrder(log, |log|);
    assert log[..|log|] == log;
  }

  lemma {:induction false} PlacesInOrder(log: seq<Line>, j: nat)
    requires PlacesFit(log) && j <= |log|
    ensures InOrder(FullLines(log[..j]), FULL_MARKERS)
  {
    if j > 0 {
      FrontPrefix(log, j - 1);
      PlacesInOrder(log, j - 1);
      var m := log[j - 1].marker;
      if IsFullMarker(m) {
        InOrderNext(FullLines(log[..j - 1]), m, FULL_MARKERS);
      } else {
        assert FullLines(log[..j - 1]) + [] == FullLines(log[..j - 1]);
      }
    }
  }

  /** The line that brings the marker count from `i` to `i + 1`. */
  lemma {:induction false} PlaceOfMarker(log: seq<Line>, i: nat) returns (k: nat)
    requires i < |FullLines(log)|
    ensures k < |log| && log[k].marker == FullLines(log)[i] && IsFullMarker(log[k].marker)
    ensures |FullLines(log[..k])| == i
  {
    if |FullLines(Front(log))| == i {
      k := |log| - 1;
      assert Front(log) == log[..k];
    } else {
      k := PlaceOfMarker(Front(log), i);
      assert Front(log)[..k] == log[..k];
    }
  }

  lemma MarkerValid(expected: Marker, log: seq<Line>, k: nat)
    requires Clean(expected, log) && k < |log|
    ensures !IsFull(expected) || !IsFullMarker(log[k].marker) || FullMarkerValid(log[..k], log[k].marker)
  {
    CleanPrefix(expected, log, k);
  }

  /** The one reset of an accepted full run, and the boot it leads to. */
  ghost predicate ResetAt(log: seq<Line>, reset: nat, boot: nat) {
    && reset < boot < |log|
    && log[reset].marker == ExpectReset(0) && log[boot].marker == Boot(1)
    && (forall k | 0 <= k < |log| && log[k].marker.ExpectReset? :: k == reset)
    && (forall k | 0 <= k < |log| && log[k].marker.Boot? && k != boot :: k < reset && log[k].marker == Boot(0))
    && FullLines(log[..reset]) == FullLines(log[..boot]) <= FullLines(log)
    && |FullLines(log[..reset])| == FULL_BOOT_ZERO_MARKER_COUNT
  }

  lemma {:induction false} FindReset(log: seq<Line>, n: nat) returns (k: nat)
    requires n < Resets(log)
    ensures k < |log| && log[k].marker.ExpectReset? && Resets(log[..k]) == n
  {
    if Resets(Front(log)) == n {
      k := |log| - 1;
      assert Front(log) == log[..k];
    } else {
      k := FindReset(Front(log), n);
      assert Front(log)[..k] == log[..k];
    }
  }

  lemma {:induction false} FindBoot(log: seq<Line>, n: nat) returns (k: nat)
    requires n < Boots(log)
    ensures k < |log| && log[k].marker.Boot? && Boots(log[..k]) == n
  {
    if Boots(Front(log)) == n {
      k := |log| - 1;
      assert Front(log) == log[..k];
    } else {
      k := FindBoot(Front(log), n);
      assert Front(log)[..k] == log[..k];
    }
  }

  /** After line `k` the counts have moved on by that line. */
  lemma After(log: seq<Line>, k: nat)
    requires k < |log|
    ensures Boots(log[..k + 1]) == Boots(log[..k]) + if log[k].marker.Boot? then 1 else 0
    ensures Resets(log[..k + 1]) == Resets(log[..k]) + if log[k].marker.ExpectReset? then 1 else 0
    ensures |FullLines(log[..k + 1])| == |FullLines(log[..k])| + if IsFullMarker(log[k].marker) then 1 else 0
    ensures Boots(log[..k + 1]) <= Boots(log) && Resets(log[..k + 1]) <= Resets(log)
  {
    FrontPrefix(log, k);
    Growing(log, k + 1, |log|);
    assert log[..|log|] == log;
  }

  lemma ResetIsUnique(log: seq<Line>, reset: nat)
    requires Resets(log) == 1 && reset < |log| && log[reset].marker.ExpectReset?
    ensures Resets(log[..reset]) == 0
    ensures forall k | 0 <= k < |log| && log[k].marker.ExpectReset? :: k == reset
  {
    After(log, reset);
    forall k | 0 <= k < |log| && log[k].marker.ExpectReset? ensures k == reset {
      After(log, k);
      if k < reset { Growing(log, k + 1, reset); } else if reset < k { Growing(log, reset + 1, k); }
    }
  }

  lemma BootFacts(full: bool, log: seq<Line>, k: nat)
    requires BootsFit(full, log) && k < |log| && log[k].marker.Boot?
    ensures log[k].marker == Boot(Boots(log[..k])) && (Boots(log[..k]) > 0 ==> Resets(log[..k]) == Boots(log[..k]))
  {
  }

  lemma ResetFacts(full: bool, log: seq<Line>, k: nat)
    requires BootsFit(full, log) && k < |log| && log[k].marker.ExpectReset?
    ensures Boots(log[..k]) > 0 && log[k].marker == ExpectReset(Boots(log[..k]) - 1)
    ensures full && Boots(log[..k]) == 1 ==> |FullLines(log[..k])| == FULL_BOOT_ZERO_MARKER_COUNT
  {
  }

  /** The reset before the second boot came after the first. */
  lemma ResetBetween(log: seq<Line>, reset: nat, boot: nat)
    requires reset < |log| && boot < |log| && log[boot].marker.Boot? && log[reset].marker.ExpectReset?
    requires Boots(log[..boot]) == 1 && Resets(log[..boot]) == 1
    requires Boots(log[..reset]) > 0 && Resets(log[..reset]) == 0
    ensures reset < boot && Boots(log[..reset]) == 1
  {
    if boot <= reset { Growing(log, boot, reset); } else { Growing(log, reset, boot); }
  }

  lemma OtherBoots(log: seq<Line>, reset: nat, boot: nat, k: nat)
    requires Boots(log) == 2 && k < |log| && log[k].marker.Boot? && k != boot
    requires reset < boot < |log| && log[boot].marker.Boot? && Boots(log[..boot]) == 1 && Boots(log[..reset]) == 1
    ensures k < reset && Boots(log[..k]) == 0
  {
    After(log, boot);
    if boot < k {
      After(log, k);
      Growing(log, boot + 1, k);
    } else {
      Growing(log, k + 1, boot);
      FrontPrefix(log, k);
      if reset <= k { Growing(log, reset, k); }
    }
  }

  lemma SteadyBoots(log: seq<Line>, i: nat, k: nat, j: nat)
    requires i <= k <= j <= |log| && Boots(log[..i]) == Boots(log[..j])
    ensures Boots(log[..k]) == Boots(log[..i])
  {
    Growing(log, i, k);
    Growing(log, k, j);
  }

  lemma QuietStep(log: seq<Line>, k: nat)
    requires PlacesFit(log) && k < |log|
    requires |FullLines(log[..k])| == FULL_BOOT_ZERO_MARKER_COUNT && Boots(log[..k]) == 1
    ensures FullLines(log[..k + 1]) == FullLines(log[..k])
  {
    FrontPrefix(log, k);
    assert !IsFullMarker(log[k].marker);
  }

  /** Between the reset and the next boot no listed marker has its place. */
  lemma {:induction false} QuietAfterReset(log: seq<Line>, reset: nat, j: nat)
    requires PlacesFit(log) && reset <= j <= |log|
    requires |FullLines(log[..reset])| == FULL_BOOT_ZERO_MARKER_COUNT && Boots(log[..reset]) == 1 && Boots(log[..j]) == 1
    ensures FullLines(log[..j]) == FullLines(log[..reset])
    decreases j
  {
    if reset < j {
      SteadyBoots(log, reset, j - 1, j);
      QuietAfterReset(log, reset, j - 1);
      QuietStep(log, j - 1);
    }
  }

  /** An accepted full run shows exactly the listed markers in order, the first five before its only
      reset and the rest after the boot that follows. */
  lemma FullRun(expected: Marker, log: seq<Line>) returns (reset: nat, boot: nat)
    requires IsFull(expected) && Accepted(expected, log)
    ensures |FullLines(log)| == FULL_MARKER_COUNT && InOrder(FullLines(log), FULL_MARKERS)
    ensures ResetAt(log, reset, boot)
  {
    EndOfRun(expected, log);
    FullInOrder(expected, log);
    CleanFits(expected, log);
    reset := FindReset(log, 0);
    boot := FindBoot(log, 1);
    ResetIsUnique(log, reset);
    BootFacts(true, log, boot);
    ResetFacts(true, log, reset);
    ResetBetween(log, reset, boot);
    forall k | 0 <= k < |log| && log[k].marker.Boot? && k != boot ensures k < reset && log[k].marker == Boot(0) {
      OtherBoots(log, reset, boot, k);
      BootFacts(true, log, k);
    }
    QuietAfterReset(log, reset, boot);
    Growing(log, reset, |log|);
    assert log[..|log|] == log;
  }

  lemma EndOfRun(expected: Marker, log: seq<Line>)
    requires IsFull(expected) && Accepted(expected, log)
    ensures |FullLines(log)| == FULL_MARKER_COUNT && Resets(log) == 1 && Boots(log) == 2
  {
    assert Front(log) + [log[|log| - 1]] == log;
  }

  // ---------------------------------------------------------------- one generation

  /** An accepted run carries one generation through its summary, its cancellation and its resumption. */
  lemma OneGeneration(expected: Marker, log: seq<Line>) returns (summary: nat, cancel: nat, resume: nat)
    requires IsFull(expected) && Accepted(expected, log)
    ensures summary < cancel < resume < |log|
    ensures log[summary].marker.Summary? && log[cancel].marker.CancelPass? && log[resume].marker.ResumePass?
    ensures log[summary].marker.generation == log[cancel].marker.cancellation.generation
         == log[resume].marker.continuation.generation
    ensures SlowRecords(log[..summary]) == SlowRecords(log)
    ensures forall k | 0 <= k < |log| ::
              && (log[k].marker.Summary? ==> k == summary)
              && (log[k].marker.CancelPass? ==> k == cancel)
              && (log[k].marker.ResumePass? ==> k == resume)
  {
    EachOnce();
    CleanFits(expected, log);
    summary := MarkerAt(expected, log, 2);
    cancel := MarkerAt(expected, log, 3);
    resume := MarkerAt(expected, log, 5);
    Before(log, summary, cancel);
    Before(log, cancel, resume);
    SummaryIsFinal(expected, log, summary);
    CancelMatchesSummary(expected, log, summary, cancel);
    ResumeMatchesCancel(expected, log, cancel, resume);
    forall k | 0 <= k < |log|
      ensures log[k].marker.CancelPass? ==> k == cancel
      ensures log[k].marker.ResumePass? ==> k == resume
    {
      if log[k].marker.CancelPass? { Alone(log, k, cancel, 3); }
      if log[k].marker.ResumePass? { Alone(log, k, resume, 5); }
    }
  }

  lemma CancelMatchesSummary(expected: Marker, log: seq<Line>, summary: nat, cancel: nat)
    requires IsFull(expected) && Clean(expected, log) && summary < cancel < |log|
    requires log[summary].marker.Summary? && log[cancel].marker.CancelPass?
    ensures log[summary].marker.generation == log[cancel].marker.cancellation.generation
  {
    MarkerValid(expected, log, cancel);
    CleanPrefix(expected, log, cancel);
    SummaryIsFinal(expected, log[..cancel], summary);
  }

  lemma ResumeMatchesCancel(expected: Marker, log: seq<Line>, cancel: nat, resume: nat)
    requires IsFull(expected) && Clean(expected, log) && cancel < resume < |log|
    requires log[cancel].marker.CancelPass? && log[resume].marker.ResumePass? && |FullLines(log[..cancel])| == 3
    ensures log[cancel].marker.cancellation.generation == log[resume].marker.continuation.generation
  {
    assert ResumeFits(log[..resume], log[resume].marker.continuation) by {
      MarkerValid(expected, log, resume);
    }
    CleanFits(expected, log);
    forall k | 0 <= k < |log| && log[k].marker.CancelPass? ensures k == cancel {
      if k != cancel { NoOtherCancel(log, cancel, k); }
    }
    CancelStays(log, cancel, resume);
  }

  /** Place `i` of the list is the only one of its kind. */
  ghost predicate OnlyAt(i: nat) {
    i < FULL_MARKER_COUNT && forall j | 0 <= j < FULL_MARKER_COUNT && j != i :: FullMarkerAt(j) != FullMarkerAt(i)
  }

  lemma EachOnce()
    ensures OnlyAt(2) && OnlyAt(3) && OnlyAt(5)
    ensures FullMarkerAt(2) == KSummary && FullMarkerAt(3) == KCancel && FullMarkerAt(5) == KResume
  {
  }

  lemma MarkerAt(expected: Marker, log: seq<Line>, i: nat) returns (k: nat)
    requires IsFull(expected) && Accepted(expected, log)
    requires i < FULL_MARKER_COUNT
    ensures k < |log| && |FullLines(log[..k])| == i && KindOf(log[k].marker) == FullMarkerAt(i)
  {
    var reset, boot := FullRun(expected, log);
    k := PlaceOfMarker(log, i);
    assert KindOf(FullLines(log)[i]) == FullMarkerAt(i);
  }

  lemma Before(log: seq<Line>, j: nat, k: nat)
    requires j < |log| && k < |log| && |FullLines(log[..j])| < |FullLines(log[..k])|
    ensures j < k
  {
    if k <= j { Growing(log, k, j); }
  }

  lemma Alone(log: seq<Line>, k: nat, place: nat, i: nat)
    requires PlacesFit(log) && k < |log| && place < |log| && OnlyAt(i)
    requires KindOf(log[k].marker) == KindOf(log[place].marker) == FullMarkerAt(i)
    requires |FullLines(log[..place])| == i && IsFullMarker(log[k].marker)
    ensures k == place
  {
    After(log, k);
    After(log, place);
    if k < place { Growing(log, k + 1, place); } else if place < k { Growing(log, place + 1, k); }
  }

  lemma {:induction false} CancelStays(log: seq<Line>, cancel: nat, j: nat)
    requires cancel < j <= |log| && log[cancel].marker.CancelPass?
    requires forall k | 0 <= k < |log| && log[k].marker.CancelPass? :: k == cancel
    ensures CancelGeneration(log[..j]) == Some(log[cancel].marker.cancellation.generation)
    decreases j
  {
    FrontPrefix(log, j - 1);
    if cancel + 1 < j { CancelStays(log, cancel, j - 1); }
  }

  lemma NoOtherCancel(log: seq<Line>, cancel: nat, k: nat)
    requires PlacesFit(log) && cancel < |log| && log[cancel].marker.CancelPass? && |FullLines(log[..cancel])| == 3
    requires k < |log| && k != cancel
    ensures !log[k].marker.CancelPass?
  {
    EachOnce();
    if log[k].marker.CancelPass? { Alone(log, k, cancel, 3); }
  }

}

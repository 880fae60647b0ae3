/** The lines the log guard understands, parsed, and the checks that need one line only. */
module GuardLines {
  import opened Wrappers

  const UINT8_MAX := 0xFF
  const UINT16_MAX := 0xFFFF
  const UINT32_MAX := 0xFFFF_FFFF
  const INT32_MIN := -0x8000_0000
  const INT32_MAX := 0x7FFF_FFFF

  datatype Operation =
    | Open | Read | Write | Flush | Sync | Close | Remove | MkDir | List | Capacity | Metadata | Rename | Multiple
    | UnknownOperation(name: string)

  datatype Mode = NoMode | ReadMode | WriteMode | ReadWriteMode | WriteTruncateMode | UnknownMode(name: string)

  /** A record of one slow storage call. */
  datatype Slow = Slow(
    index: nat, slice: nat, calls: nat, op: Operation, mode: Mode, recursive: nat, request: nat,
    total: nat, callback: nat, nonio: nat)

  /** The sums a summary line repeats. */
  datatype Totals = Totals(
    writes: nat, renames: nat, openReads: nat, request: nat, callback: nat, nonio: nat,
    maxTotal: nat, maxCallback: nat)

  datatype Cancellation = Cancellation(
    generation: nat, steps: nat, slices: nat, milliseconds: nat, microseconds: nat,
    callback: nat, op: Operation, ioCalls: nat, ioRequest: nat)

  datatype Continuation = Continuation(
    generation: nat, resumed: nat, freshSteps: nat, resumedSteps: nat, truncated: nat, removed: nat)

  datatype Pass = Uncached | Cached
  datatype Stage = Stage(pass: Pass, name: StageName, index: Option<nat>, pages: Option<nat>)
  datatype StageName = Preclean | Begin | Load | Section | Xhtml | Css | Cache | Frame | End

  /** What a line says. A line that only starts like a structured marker is `Malformed`. */
  datatype Marker =
    | SlowAtomic(slow: Slow)
    | Summary(generation: nat, slices: nat, total: nat, totals: Totals)
    | SliceBudgetFail
    | ProgressPage(values: seq<nat>)
    | ProgressDiagnostic(ints: seq<int>, nats: seq<nat>, millionths: nat)
    | JpegDiagnostic(sections: int, words: nat, semanticBytes: nat, imageTags: nat, captions: nat)
    | EpubStage(stage: Stage)
    | Malformed
    | Boot(boot: nat)
    | ExpectReset(boot: nat)
    | StoragePass | FramePass | InputPass | PowerPass
    | Runtime(heapStart: nat, minFree: nat, minLargest: nat, maxAllocation: nat, stack: nat)
    | RawPass
    | CancelPass(cancellation: Cancellation)
    | ResumePass(continuation: Continuation)
    | TypographyPass(hashes: seq<nat>, frames: (nat, nat, nat), counts: seq<nat>, fontId: int)
    | NavPass
    | ImagePass(retained: nat, frame: nat, blank: nat)
    | PositivePass(hashes: seq<nat>, counts: seq<nat>, frame: nat, blank: nat)
    | FramebufferGuard(size: nat, checks: nat, violations: nat, controls: nat, rejected: nat)
    | ProgressMid(words: nat, cursor: nat, percent: nat)
    | ProgressPass(words: nat, cursor: nat, percent: nat)
    | CacheReopen(extraction: nat, parser: nat, opens: nat, readCalls: nat, request: nat, before: Resources, after: Resources)
    | NegativePass(checked: nat, rejected: nat, outOfMemory: bool, completed: nat)
    | EpubOracle(pass: Pass, hashes: seq<nat>)
    | EpubProgress(place: (nat, nat, nat), book: nat, bookmark: nat)
    | PdfTracerPass | TracerPass | TestPass
    | Other(text: string)

  datatype Resources = Resources(heap: nat, largest: nat, stack: nat)

  /** A line; `alarm` says that one of the failure patterns occurs in it. */
  datatype Line = Line(marker: Marker, alarm: bool)

  // ---------------------------------------------------------------- the ordered marker list

  datatype Kind =
    | KStorage | KFrame | KInput | KPower | KRuntime | KRaw | KSummary | KCancel | KResume | KTypography | KNav
    | KImage | KPositive | KFramebuffer | KProgressMid | KProgress | KCacheReopen | KNegative | KEpubOracle
    | KEpubProgress | KPdfTracer | KTracer
    | Unlisted

  function KindOf(m: Marker): Kind {
    match m
    case StoragePass => KStorage
    case FramePass => KFrame
    case InputPass => KInput
    case PowerPass => KPower
    case Runtime(_, _, _, _, _) => KRuntime
    case RawPass => KRaw
    case Summary(_, _, _, _) => KSummary
    case CancelPass(_) => KCancel
    case ResumePass(_) => KResume
    case TypographyPass(_, _, _, _) => KTypography
    case NavPass => KNav
    case ImagePass(_, _, _) => KImage
    case PositivePass(_, _, _, _) => KPositive
    case FramebufferGuard(_, _, _, _, _) => KFramebuffer
    case ProgressMid(_, _, _) => KProgressMid
    case ProgressPass(_, _, _) => KProgress
    case CacheReopen(_, _, _, _, _, _, _) => KCacheReopen
    case NegativePass(_, _, _, _) => KNegative
    case EpubOracle(_, _) => KEpubOracle
    case EpubProgress(_, _, _) => KEpubProgress
    case PdfTracerPass => KPdfTracer
    case TracerPass => KTracer
    case _ => Unlisted
  }

  const TRACER_MARKERS: seq<Kind> := [KStorage, KFrame, KInput, KPower, KRuntime]

  const FULL_MARKER_COUNT := 25

  function FullMarkerAt(i: nat): Kind {
    match i
    case 0 => KStorage
    case 1 => KRaw
    case 2 => KSummary
    case 3 => KCancel
    case 4 => KRuntime
    case 5 => KResume
    case 6 => KTypography
    case 7 => KNav
    case 8 => KImage
    case 9 => KPositive
    case 10 => KFramebuffer
    case 11 => KProgressMid
    case 12 => KProgress
    case 13 => KCacheReopen
    case 14 => KNegative
    case 15 => KEpubOracle
    case 16 => KEpubOracle
    case 17 => KEpubProgress
    case 18 => KStorage
    case 19 => KFrame
    case 20 => KInput
    case 21 => KPower
    case 22 => KRuntime
    case 23 => KPdfTracer
    case _ => KTracer
  }

  const FULL_MARKERS: seq<Kind> := seq(FULL_MARKER_COUNT, i requires 0 <= i => FullMarkerAt(i))

  const FULL_BOOT_ZERO_MARKER_COUNT := 5

  /** The boot each marker of the full list belongs to. */
  function RequiredBoot(i: nat): nat { if i < FULL_BOOT_ZERO_MARKER_COUNT then 0 else 1 }

  predicate IsTracerMarker(m: Marker) { KindOf(m) in TRACER_MARKERS }

  predicate IsFullMarker(m: Marker) { KindOf(m) != Unlisted }

  lemma FullMarkersAreTheKinds()
    ensures |FULL_MARKERS| == 25 && forall k :: k in FULL_MARKERS <==> k != Unlisted
  {
    forall k | k != Unlisted ensures k in FULL_MARKERS {
      match k
      case KStorage => assert FULL_MARKERS[0] == k;
      case KRaw => assert FULL_MARKERS[1] == k;
      case KSummary => assert FULL_MARKERS[2] == k;
      case KCancel => assert FULL_MARKERS[3] == k;
      case KRuntime => assert FULL_MARKERS[4] == k;
      case KResume => assert FULL_MARKERS[5] == k;
      case KTypography => assert FULL_MARKERS[6] == k;
      case KNav => assert FULL_MARKERS[7] == k;
      case KImage => assert FULL_MARKERS[8] == k;
      case KPositive => assert FULL_MARKERS[9] == k;
      case KFramebuffer => assert FULL_MARKERS[10] == k;
      case KProgressMid => assert FULL_MARKERS[11] == k;
      case KProgress => assert FULL_MARKERS[12] == k;
      case KCacheReopen => assert FULL_MARKERS[13] == k;
      case KNegative => assert FULL_MARKERS[14] == k;
      case KEpubOracle => assert FULL_MARKERS[15] == k;
      case KEpubProgress => assert FULL_MARKERS[17] == k;
      case KFrame => assert FULL_MARKERS[19] == k;
      case KInput => assert FULL_MARKERS[20] == k;
      case KPower => assert FULL_MARKERS[21] == k;
      case KPdfTracer => assert FULL_MARKERS[23] == k;
      case KTracer => assert FULL_MARKERS[24] == k;
    }
  }

  // ---------------------------------------------------------------- EPUB stages

  const UNCACHED_STAGE_COUNT := 10

  const EXPECTED_STAGE_COUNT := 19

  /** The stages of one pass, after any cleaning up. */
  function StageOfPass(pass: Pass, i: nat): Stage {
    match i
    case 0 => Stage(pass, Begin, None, None)
    case 1 => Stage(pass, Load, None, None)
    case 2 => Stage(pass, Xhtml, Some(0), None)
    case 3 => Stage(pass, Xhtml, Some(1), None)
    case 4 => Stage(pass, Css, Some(0), None)
    case 5 => Stage(pass, Section, Some(1), Some(3))
    case 6 => Stage(pass, Cache, Some(1), None)
    case 7 => Stage(pass, Frame, Some(1), None)
    case _ => Stage(pass, End, None, None)
  }

  /** Cleaning up, then the stages of the uncached and of the cached pass. */
  function ExpectedStage(i: nat): Stage {
    if i == 0 then Stage(Uncached, Preclean, None, None)
    else if i < UNCACHED_STAGE_COUNT then StageOfPass(Uncached, i - 1)
    else StageOfPass(Cached, i - UNCACHED_STAGE_COUNT)
  }

  // ---------------------------------------------------------------- slow storage calls

  /** The kinds of call the limits allow, each with its own ceiling on the time spent in storage. */
  predicate AllowedKind(r: Slow) {
    match r.op
    case Write => r.mode == NoMode && 1 <= r.request <= 1024 && r.callback <= 30000
    case Rename => r.mode == NoMode && r.request == 0 && r.callback <= 24000
    case Remove => r.mode == NoMode && r.request == 0 && r.callback <= 30000
    case Open =>
      if r.mode == ReadMode then r.request == 0 && r.callback <= 16000
      else r.mode in {WriteMode, ReadWriteMode, WriteTruncateMode} && r.request == 0 && r.callback <= 60000
    case Multiple => 2 <= r.calls <= 5 && r.request <= 1024 && r.callback <= 60000
    case _ => false
  }

  predicate SlowWellFormed(r: Slow) {
    && r.slice < 256
    && r.calls >= 1 && (r.op != Multiple ==> r.calls == 1)
    && r.recursive == 0
    && r.total > 8000 && r.callback <= r.total && r.nonio == r.total - r.callback && r.nonio <= 500
    && AllowedKind(r)
  }

  const MAX_WRITES := 22
  const MAX_RENAMES := 2
  const MAX_OPEN_READS := 8
  const MAX_TOTAL := 32

  predicate WithinLimits(t: Totals) {
    && t.writes <= MAX_WRITES && t.renames <= MAX_RENAMES && t.openReads <= MAX_OPEN_READS
    && t.request <= 3072 && t.callback <= 550000 && t.nonio <= 5000
  }

  // ---------------------------------------------------------------- witnesses of one line

  const EXPECTED_ORACLE: seq<nat> :=
    [0x46385061C46C2FE4, 0x4060CB229041492D, 0x3CC3246E367521F4, 0x5A4EB3E9690894B7, 0xE99DC1B84A90C006]
  const EXPECTED_TYPOGRAPHY: seq<nat> := [0x95EE2813D71DFE2E, 0x95EE2813D71DFE2E, 0xE1AC47B687F6E82A, 0xE1AC47B687F6E82A]
  const EXPECTED_POSITIVE: seq<nat> := [0xDFAE2740CD6F6513, 0x715E72B598FFFFE3, 0x4BD86B77E1579064, 0xE72D737B2BF7D6CF]

  predicate Narrow32(values: seq<nat>) { forall v :: v in values ==> v <= UINT32_MAX }

  /** The checks of a full acceptance marker that look at nothing but the line. */
  predicate Witness(m: Marker) {
    match m
    case Runtime(heapStart, minFree, minLargest, maxAllocation, stack) =>
      && heapStart <= UINT32_MAX && stack <= UINT32_MAX
      && 0 < minFree <= heapStart && 0 < minLargest <= minFree && stack > 0
      && 1 <= maxAllocation <= 32768 && maxAllocation <= minFree
    case FramebufferGuard(size, checks, violations, controls, rejected) =>
      size == 48000 && 1 <= checks <= UINT32_MAX && violations == 0 && controls == checks * 2 && rejected == controls
    case ProgressMid(words, cursor, percent) => (words, cursor, percent) == (10, 6, 60)
    case ProgressPass(words, cursor, percent) =>
      && (words, cursor, percent) == (10, 10, 100)
      && percent == if words > 0 then (cursor * 100 + words / 2) / words else 0
    case TypographyPass(hashes, frames, counts, fontId) =>
      && hashes == EXPECTED_TYPOGRAPHY
      && frames.0 != 0 && frames.0 == frames.1 && frames.0 != frames.2
      && counts == [4, 4, 1, 1] && INT32_MIN <= fontId <= INT32_MAX
    case ImagePass(retained, frame, blank) => retained == 1 && frame != blank
    case PositivePass(hashes, counts, frame, blank) =>
      hashes == EXPECTED_POSITIVE && counts == [4, 8, 4, 2, 1, 1] && frame != 0 && frame != blank
    case CacheReopen(extraction, parser, opens, readCalls, request, before, after) =>
      && Narrow32([before.heap, after.heap, before.largest, after.largest, before.stack, after.stack])
      && extraction == 0 && parser == 0 && opens == 1 && 1 <= readCalls <= 2 && 1 <= request <= 4096
      && 0 < before.largest <= before.heap <= after.heap && 0 < before.stack <= after.stack
      && before.largest <= after.largest <= after.heap
    case NegativePass(checked, rejected, outOfMemory, completed) =>
      checked == 7 && rejected == 7 && outOfMemory && completed == 0
    case EpubProgress(place, book, bookmark) => place == (1, 1, 3) && book == 643454 && bookmark == 333333
    case _ => true
  }

  /** The bounds of the lines that are only noted, not judged further. */
  predicate DiagnosticInBounds(m: Marker) {
    match m
    case ProgressPage(values) => Narrow32(values)
    case ProgressDiagnostic(ints, nats, millionths) =>
      && (forall v :: v in ints ==> INT32_MIN <= v <= INT32_MAX)
      && Narrow32(nats) && millionths <= 1000000
    case JpegDiagnostic(sections, words, semanticBytes, imageTags, captions) =>
      && -1 <= sections <= INT32_MAX && words <= UINT32_MAX && semanticBytes <= UINT32_MAX
      && imageTags <= UINT16_MAX && captions <= UINT16_MAX
    case _ => true
  }
}

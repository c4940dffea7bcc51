/**
 * What the verifier says about every log, faulty ones included: a report written line by line from
 * the log itself, and the proof that the verifier's state and errors are the ones it names.
 */
module Report {
  import opened Wrappers
  import opened Octets
  import opened Crypto
  import opened SdRecords
  import opened LogVerifier
  import opened Acceptance

  // ---------- Which lines count ----------

  /** A line that is skipped takes no number: an unknown type, or a CONTINUE of another key. */
  predicate IsHashed(c: VConfig, e: Entry) {
    match e.record.kind
    case OtherType(_) => false
    case ContinueType => e.record.fp in {None, Some(c.fp)}
    case _ => true
  }

  /** The entries that take a number, in order. */
  function Hashed(c: VConfig, lines: seq<string>): seq<Entry> {
    if lines == [] then []
    else
      var n := |lines| - 1;
      var before := Hashed(c, lines[..n]);
      match ReadLine(lines[n])
      case Readable(e, _) => if IsHashed(c, e) then before + [e] else before
      case _ => before
  }

  /** Behind the numbered entries `es` this reading ends the run. */
  predicate Stops(c: VConfig, es: seq<Entry>, reading: Reading) {
    match reading
    case Overrun => true
    case Unreadable => es == []
    case Readable(e, _) =>
      var width := |e.record.hash|;
      match e.record.kind
      case InitType =>
        || e.record.fp != Some(c.fp) || AlgFromHexLen(2 * width).None?
        || (es != [] && width != HashLen(LogAlg(es)))
      case _ => es == [] || (IsHashed(c, e) && width != HashLen(LogAlg(es)))
  }

  ghost predicate NeverStops(c: VConfig, lines: seq<string>) {
    forall k :: 0 <= k < |lines| ==> !Stops(c, Hashed(c, lines[..k]), ReadLine(lines[k]))
  }

  // ---------- What is reported about a line ----------

  /** The head of the chain over the payloads that were read since the segment began. */
  function HeadOf(c: VConfig, es: seq<Entry>): octets
    requires es != []
  {
    Fold(c.prims, LogAlg(es), SegPayloads(es, |es| - 1))
  }

  /** The last entry is a signature that the key accepts over the payloads that were read. */
  predicate EndsSigned(c: VConfig, es: seq<Entry>)
    requires es != []
  {
    var r := es[|es| - 1].record;
    IsSig(es[|es| - 1]) && r.signature.Some? && c.prims.check(HeadOf(c, es), r.signature.value).Valid?
  }

  /** The end of the range of the last such signature in the segment; zero when there is none. */
  function SignedEnd(c: VConfig, es: seq<Entry>): nat {
    if es == [] || IsInit(es[|es| - 1]) then 0
    else if EndsSigned(c, es) then es[|es| - 1].record.sigTo
    else SignedEnd(c, es[..|es| - 1])
  }

  function SignedCount(c: VConfig, es: seq<Entry>): nat {
    if es == [] then 0 else SignedCount(c, es[..|es| - 1]) + if EndsSigned(c, es) then 1 else 0
  }

  function Tail(c: VConfig, es: seq<Entry>): nat
    requires es != []
  {
    Sub64(NumberAt(es, |es| - 1), SignedEnd(c, es))
  }

  function When(fault: bool, kind: ErrorKind): seq<ErrorKind> {
    if fault then [kind] else []
  }

  function SigReport(c: VConfig, es: seq<Entry>, e: Entry): seq<ErrorKind> {
    var r := e.record;
    if r.signature.None? then [MissingSignature]
    else
      var verdict := c.prims.check(HeadOf(c, es + [e]), r.signature.value);
      When(r.sigFrom != Succ64(SignedEnd(c, es)), FromMismatch)
      + When(r.sigTo != NumberAt(es + [e], |es|), ToMismatch)
      + When(verdict.Invalid?, SignatureInvalid) + When(verdict.Failed?, SignatureError)
  }

  /** The faults of an entry that does not end the run, in the order they are found. */
  function EntryReport(c: VConfig, es: seq<Entry>, e: Entry): seq<ErrorKind> {
    if !IsHashed(c, e) then [if e.record.kind == ContinueType then ContinueFingerprintMismatch else UnknownType]
    else
      When(IsInit(e) && es != [] && c.strict && Tail(c, es) > 0, UnsignedBeforeSegment)
      + When(e.record.number != NumberAt(es + [e], |es|), NumberMismatch)
      + When(e.record.hash != HeadOf(c, es + [e]), HashMismatch)
      + if IsSig(e) then SigReport(c, es, e) else []
  }

  function LineReport(c: VConfig, es: seq<Entry>, reading: Reading): seq<ErrorKind> {
    match reading
    case Readable(e, certOk) => When(!certOk, CertMalformed) + EntryReport(c, es, e)
    case _ => [NoElement]
  }

  function AtLine(line: nat, kinds: seq<ErrorKind>): (es: seq<VError>)
    ensures |es| == |kinds| && forall k :: 0 <= k < |es| ==> es[k] == VError(line, kinds[k])
  {
    seq(|kinds|, k requires 0 <= k < |kinds| => VError(line, kinds[k]))
  }

  /** Every fault of every line, however many there are. */
  function AllFaults(c: VConfig, lines: seq<string>): seq<VError> {
    if lines == [] then []
    else
      var n := |lines| - 1;
      AllFaults(c, lines[..n]) + AtLine(n + 1, LineReport(c, Hashed(c, lines[..n]), ReadLine(lines[n])))
  }

  /** Only the first 64 faults are kept. */
  function First64(errors: seq<VError>): seq<VError> {
    if |errors| <= 64 then errors else errors[..64]
  }

  /** The state the numbered entries determine, with these errors. */
  function StateOf(c: VConfig, es: seq<Entry>, errors: seq<VError>): VState {
    if es == [] then INITIAL.(errors := errors)
    else
      VState(Processing, LogAlg(es), true, HeadOf(c, es), NumberAt(es, |es| - 1) + 1, SignedEnd(c, es),
             |es|, SignedCount(c, es), Segments(es), errors)
  }

  /** The state the log determines. */
  function Reported(c: VConfig, lines: seq<string>): VState {
    StateOf(c, Hashed(c, lines), First64(AllFaults(c, lines)))
  }

  /** The verifier's numbers are unsigned 64-bit: what a hostile range pushes past either end wraps. */
  lemma NumbersWrap(a: nat, b: nat)
    requires a < TWO_64 && b < TWO_64
    ensures Succ64(a) == (a + 1) % 0x1_0000_0000_0000_0000
    ensures Pred64(a) == (a - 1) % 0x1_0000_0000_0000_0000
    ensures Sub64(a, b) == (a - b) % 0x1_0000_0000_0000_0000
  {
  }

  // ---------- Adding errors ----------

  function Grow(errors: seq<VError>, line: nat, kinds: seq<ErrorKind>): (r: seq<VError>)
    ensures |r| <= 64
  {
    First64(errors + AtLine(line, kinds))
  }

  lemma GrowTwice(errors: seq<VError>, line: nat, a: seq<ErrorKind>, b: seq<ErrorKind>)
    ensures Grow(Grow(errors, line, a), line, b) == Grow(errors, line, a + b)
  {
    var all := errors + AtLine(line, a);
    assert errors + AtLine(line, a + b) == all + AtLine(line, b);
    FirstOfFirst(all, AtLine(line, b));
  }

  lemma FirstOfFirst(a: seq<VError>, b: seq<VError>)
    ensures First64(First64(a) + b) == First64(a + b)
  {
  }

  lemma GrowNothing(errors: seq<VError>, line: nat)
    requires |errors| <= 64
    ensures Grow(errors, line, []) == errors
  {
    assert errors + AtLine(line, []) == errors;
  }

  lemma GrowCheck(s: VState, line: nat, fault: bool, kind: ErrorKind)
    requires |s.errors| <= 64
    ensures Check(s, !fault, line, kind) == s.(errors := Grow(s.errors, line, When(fault, kind)))
    ensures AddError(s, line, kind) == s.(errors := Grow(s.errors, line, [kind]))
  {
    GrowNothing(s.errors, line);
    assert AtLine(line, [kind]) == [VError(line, kind)];
  }

  // ---------- One line ----------

  lemma HashStep(c: VConfig, s: VState, e: Entry, line: nat)
    requires |s.errors| <= 64 && |e.record.hash| == HashLen(s.alg)
    ensures var h := Link(c.prims, s.alg, s.head, s.next, e.payload);
            var faults := When(e.record.number != s.next, NumberMismatch) + When(h != e.record.hash, HashMismatch);
            CheckHash(c, s, e, line) ==
              (s.(head := h, next := s.next + 1, messages := s.messages + 1,
                  errors := Grow(s.errors, line, faults)), true)
  {
    hide Link, Grow;
    var h := Link(c.prims, s.alg, s.head, s.next, e.payload);
    var s1 := Check(s, e.record.number == s.next, line, NumberMismatch);
    GrowCheck(s, line, e.record.number != s.next, NumberMismatch);
    GrowCheck(s1.(head := h), line, h != e.record.hash, HashMismatch);
    GrowTwice(s.errors, line, When(e.record.number != s.next, NumberMismatch), When(h != e.record.hash, HashMismatch));
  }

  /** How the quantities of the report go on behind one more numbered entry. */
  lemma NextIs(c: VConfig, es: seq<Entry>, e: Entry)
    requires es != [] && !IsInit(e)
    ensures var es' := es + [e];
            && LogAlg(es') == LogAlg(es) && NumberAt(es', |es|) == NumberAt(es, |es| - 1) + 1
            && HeadOf(c, es') == Link(c.prims, LogAlg(es), HeadOf(c, es), NumberAt(es', |es|), e.payload)
            && SignedEnd(c, es') == (if EndsSigned(c, es') then e.record.sigTo else SignedEnd(c, es))
            && SignedCount(c, es') == SignedCount(c, es) + (if EndsSigned(c, es') then 1 else 0)
            && Segments(es') == Segments(es) + (if e.record.kind == ContinueType then 1 else 0)
  {
    hide HeadOf, NumberAt, LogAlg, EndsSigned, IsSig, Link, IsInit;
    NextHead(c, es, e);
    CountsStep(es, e);
    assert (es + [e])[..|es|] == es && (es + [e])[|es|] == e;
    assert e.record.kind != InitType by { NoInit(e); }
  }

  lemma NoInit(e: Entry)
    ensures IsInit(e) <==> e.record.kind == InitType
  {
  }

  lemma NextHead(c: VConfig, es: seq<Entry>, e: Entry)
    requires es != [] && !IsInit(e)
    ensures var es' := es + [e];
            && LogAlg(es') == LogAlg(es) && NumberAt(es', |es|) == NumberAt(es, |es| - 1) + 1
            && HeadOf(c, es') == Link(c.prims, LogAlg(es), HeadOf(c, es), NumberAt(es', |es|), e.payload)
  {
    hide Link, Fold, SegPayloads, NumberAt, LogAlg, IsInit;
    NextLine(es, e);
    LogAlgPrefix(es, e);
    FoldStep(c.prims, LogAlg(es), SegPayloads(es, |es| - 1), e.payload);
    PayloadCount(es);
  }

  lemma PayloadCount(es: seq<Entry>)
    requires es != []
    ensures |SegPayloads(es, |es| - 1)| == NumberAt(es, |es| - 1)
  {
  }

  /** A numbered entry inside a segment that is not a signature. */
  lemma StepPlain(c: VConfig, es: seq<Entry>, x: seq<VError>, e: Entry, line: nat)
    requires es != [] && |x| <= 64 && e.record.kind in {MsgType, ContinueType} && IsHashed(c, e)
    requires |e.record.hash| == HashLen(LogAlg(es))
    ensures ProcessEntry(c, StateOf(c, es, x), e, line) ==
            (StateOf(c, es + [e], Grow(x, line, EntryReport(c, es, e))), true)
  {
    hide CheckHash, Link, HeadOf, SignedEnd, SignedCount, Segments, NumberAt, LogAlg, Grow, HashLen;
    var s := StateOf(c, es, x);
    NextIs(c, es, e);
    HashStep(c, s, e, line);
    HashStep(c, s.(segments := s.segments + 1), e, line);
    assert [] + When(e.record.number != s.next, NumberMismatch) == When(e.record.number != s.next, NumberMismatch);
    assert EntryReport(c, es, e) ==
           When(e.record.number != s.next, NumberMismatch) + When(e.record.hash != HeadOf(c, es + [e]), HashMismatch);
    assert !EndsSigned(c, es + [e]) by { assert (es + [e])[|es|] == e; }
  }

  /** The faults of a signature line once its hash has been taken in. */
  function SigFaults(c: VConfig, s: VState, e: Entry): seq<ErrorKind> {
    var r := e.record;
    if r.signature.None? then [MissingSignature]
    else
      var verdict := c.prims.check(s.head, r.signature.value);
      When(r.sigFrom != Succ64(s.lastSigned), FromMismatch) + When(r.sigTo != s.next - 1, ToMismatch)
      + When(verdict.Invalid?, SignatureInvalid) + When(verdict.Failed?, SignatureError)
  }

  predicate SigCounts(c: VConfig, s: VState, e: Entry) {
    e.record.signature.Some? && c.prims.check(s.head, e.record.signature.value).Valid?
  }

  lemma SigStep(c: VConfig, s: VState, s1: VState, e: Entry, line: nat)
    requires s.phase == Processing && CheckHash(c, s, e, line) == (s1, true) && |s1.errors| <= 64
    ensures HandleSig(c, s, e, line) ==
            (s1.(lastSigned := if SigCounts(c, s1, e) then e.record.sigTo else s1.lastSigned,
                 signatures := if SigCounts(c, s1, e) then s.signatures + 1 else s1.signatures,
                 errors := Grow(s1.errors, line, SigFaults(c, s1, e))), true)
  {
    hide CheckHash, Grow, Succ64;
    var r := e.record;
    if r.signature.None? {
      GrowCheck(s1, line, true, MissingSignature);
    } else {
      var verdict := c.prims.check(s1.head, r.signature.value);
      var (f, t) := (When(r.sigFrom != Succ64(s1.lastSigned), FromMismatch), When(r.sigTo != s1.next - 1, ToMismatch));
      var (i, x) := (When(verdict.Invalid?, SignatureInvalid), When(verdict.Failed?, SignatureError));
      var s2 := Check(s1, r.sigFrom == Succ64(s1.lastSigned), line, FromMismatch);
      var s3 := Check(s2, r.sigTo == s1.next - 1, line, ToMismatch);
      GrowCheck(s1, line, r.sigFrom != Succ64(s1.lastSigned), FromMismatch);
      GrowCheck(s2, line, r.sigTo != s1.next - 1, ToMismatch);
      GrowCheck(s3, line, verdict.Invalid?, SignatureInvalid);
      GrowCheck(s3, line, verdict.Failed?, SignatureError);
      GrowTwice(s1.errors, line, f, t);
      GrowTwice(s1.errors, line, f + t, i);
      GrowTwice(s1.errors, line, f + t + i, x);
      GrowNothing(s3.errors, line);
      assert f + t + i + [] == f + t + i && f + t + [] == f + t;
    }
  }

  /** A signature line. */
  lemma StepSig(c: VConfig, es: seq<Entry>, x: seq<VError>, e: Entry, line: nat)
    requires es != [] && |x| <= 64 && e.record.kind == SigType && |e.record.hash| == HashLen(LogAlg(es))
    ensures ProcessEntry(c, StateOf(c, es, x), e, line) ==
            (StateOf(c, es + [e], Grow(x, line, EntryReport(c, es, e))), true)
  {
    hide CheckHash, Link, HeadOf, SignedEnd, SignedCount, Segments, NumberAt, LogAlg, Grow, HashLen, Succ64, HandleSig;
    var s := StateOf(c, es, x);
    NextIs(c, es, e);
    HashStep(c, s, e, line);
    var s1 := CheckHash(c, s, e, line).0;
    var number := When(e.record.number != s.next, NumberMismatch);
    var first := number + When(e.record.hash != s1.head, HashMismatch);
    assert EntryReport(c, es, e) == first + SigReport(c, es, e) by { assert [] + number == number; }
    assert (es + [e])[|es|] == e;
    SigStep(c, s, s1, e, line);
    assert SigFaults(c, s1, e) == SigReport(c, es, e);
    GrowTwice(x, line, first, SigReport(c, es, e));
  }

  /** The first line of a log. */
  lemma StepFirstInit(c: VConfig, x: seq<VError>, e: Entry, line: nat)
    requires |x| <= 64 && IsInit(e) && e.record.fp == Some(c.fp) && AlgFromHexLen(2 * |e.record.hash|).Some?
    ensures ProcessEntry(c, StateOf(c, [], x), e, line) == (StateOf(c, [e], Grow(x, line, EntryReport(c, [], e))), true)
  {
    hide CheckHash, Link, InitHash, Fold, Grow;
    hide HeadOf, SignedEnd, SignedCount, Segments, NumberAt;
    var alg := LogAlg([e]);
    var s := OpenSegment(c, INITIAL.(errors := x), alg);
    assert [] + [e] == [e];
    FirstIs(c, [], e);
    NothingCounted(c);
    HashStep(c, s, e, line);
    var first := When(e.record.number != 1, NumberMismatch) + When(e.record.hash != HeadOf(c, [e]), HashMismatch);
    assert EntryReport(c, [], e) == first by {
      assert [] + When(e.record.number != 1, NumberMismatch) == When(e.record.number != 1, NumberMismatch);
      assert first + [] == first;
    }
  }

  lemma NothingCounted(c: VConfig)
    ensures SignedCount(c, []) == 0 && Segments([]) == 0
  {
  }

  /** How the report starts over behind an INIT line. */
  lemma FirstIs(c: VConfig, es: seq<Entry>, e: Entry)
    requires IsInit(e)
    ensures var es' := es + [e];
            && NumberAt(es', |es|) == 1 && (es != [] ==> LogAlg(es') == LogAlg(es))
            && HeadOf(c, es') == Link(c.prims, LogAlg(es'), InitHash(c.prims, LogAlg(es')), 1, e.payload)
            && SignedEnd(c, es') == 0 && SignedCount(c, es') == SignedCount(c, es) && Segments(es') == Segments(es) + 1
            && !EndsSigned(c, es')
  {
    hide Link, InitHash, Fold, LogAlg;
    NextInit(es, e);
    CountsStep(es, e);
    FoldOne(c.prims, LogAlg(es + [e]), e.payload);
    assert (es + [e])[..|es|] == es && (es + [e])[|es|] == e;
    if es != [] {
      LogAlgPrefix(es, e);
    }
  }

  /** A later INIT line. */
  lemma StepNextInit(c: VConfig, es: seq<Entry>, x: seq<VError>, e: Entry, line: nat)
    requires es != [] && |x| <= 64 && IsInit(e) && e.record.fp == Some(c.fp)
    requires AlgFromHexLen(2 * |e.record.hash|) == Some(LogAlg(es))
    ensures ProcessEntry(c, StateOf(c, es, x), e, line) ==
            (StateOf(c, es + [e], Grow(x, line, EntryReport(c, es, e))), true)
  {
    hide CheckHash, Link, InitHash, HeadOf, SignedEnd, SignedCount, Segments, NumberAt, LogAlg, Grow, HashLen, Sub64,
      EndsSigned;
    var s := StateOf(c, es, x);
    var tail := When(c.strict && Tail(c, es) > 0, UnsignedBeforeSegment);
    FirstIs(c, es, e);
    GrowCheck(s, line, c.strict && Tail(c, es) > 0, UnsignedBeforeSegment);
    var s1 := CloseSegment(c, s, line);
    assert s1 == s.(errors := Grow(x, line, tail), lastSigned := 0);
    var s2 := OpenSegment(c, s1, LogAlg(es));
    HashStep(c, s2, e, line);
    var number := When(e.record.number != 1, NumberMismatch);
    var first := number + When(e.record.hash != HeadOf(c, es + [e]), HashMismatch);
    GrowTwice(x, line, tail, first);
    assert EntryReport(c, es, e) == tail + first by {
      assert tail + number + When(e.record.hash != HeadOf(c, es + [e]), HashMismatch) == tail + first;
      assert tail + first + [] == tail + first;
    }
  }

  /** A line that is skipped. */
  lemma StepSkipped(c: VConfig, es: seq<Entry>, x: seq<VError>, e: Entry, line: nat)
    requires es != [] && |x| <= 64 && !IsHashed(c, e)
    ensures ProcessEntry(c, StateOf(c, es, x), e, line) == (StateOf(c, es, Grow(x, line, EntryReport(c, es, e))), true)
  {
    hide HeadOf, SignedEnd, SignedCount, Segments, NumberAt, LogAlg, Grow;
    GrowCheck(StateOf(c, es, x), line, true, UnknownType);
    GrowCheck(StateOf(c, es, x), line, true, ContinueFingerprintMismatch);
  }

  function Behind(c: VConfig, es: seq<Entry>, e: Entry): seq<Entry> {
    if IsHashed(c, e) then es + [e] else es
  }

  lemma EntryStepped(c: VConfig, es: seq<Entry>, x: seq<VError>, e: Entry, certOk: bool, line: nat)
    requires |x| <= 64 && !Stops(c, es, Readable(e, certOk))
    ensures ProcessEntry(c, StateOf(c, es, x), e, line) ==
            (StateOf(c, Behind(c, es, e), Grow(x, line, EntryReport(c, es, e))), true)
  {
    hide ProcessEntry, StateOf, Grow, EntryReport, LogAlg;
    if IsInit(e) && es == [] {
      StepFirstInit(c, x, e, line);
      assert [] + [e] == [e];
    } else if IsInit(e) {
      WidthOk(c, LogAlg(es), e);
      StepNextInit(c, es, x, e, line);
    } else if !IsHashed(c, e) {
      StepSkipped(c, es, x, e, line);
    } else if e.record.kind == SigType {
      StepSig(c, es, x, e, line);
    } else {
      StepPlain(c, es, x, e, line);
    }
  }

  lemma LineStepped(c: VConfig, es: seq<Entry>, x: seq<VError>, text: string, line: nat)
    requires |x| <= 64 && !Stops(c, es, ReadLine(text))
    ensures var reading := ReadLine(text);
            var es' := match reading case Readable(e, _) => Behind(c, es, e) case _ => es;
            ProcessLine(c, StateOf(c, es, x), text, line) ==
              (StateOf(c, es', Grow(x, line, LineReport(c, es, reading))), true)
  {
    hide ReadLine, ProcessEntry, Grow, EntryReport, HeadOf, SignedEnd, SignedCount, Segments, NumberAt, LogAlg, Behind;
    var s := StateOf(c, es, x);
    match ReadLine(text)
    case Unreadable => GrowCheck(s, line, true, NoElement);
    case Readable(e, certOk) =>
      var cert := When(!certOk, CertMalformed);
      GrowCheck(s, line, !certOk, CertMalformed);
      EntryStepped(c, es, Grow(x, line, cert), e, certOk, line);
      GrowTwice(x, line, cert, EntryReport(c, es, e));
  }

  /**
   * The report is the verifier: over every log that no line stops, whatever faults it has, the verifier's
   * errors are the first 64 faults of the report, and its head, number, signed range and counters are
   * those of the payloads, numbers and signatures that stand in the log.
   */
  lemma {:induction false} RunIsReported(c: VConfig, lines: seq<string>)
    requires NeverStops(c, lines)
    ensures RunAll(c, lines) == Reported(c, lines)
  {
    hide ReadLine, ProcessLine, StateOf, LineReport, Stops, IsHashed;
    if lines == [] {
      NothingReported(c);
    } else {
      var n := |lines| - 1;
      var front := lines[..n];
      forall k | 0 <= k < |front| ensures !Stops(c, Hashed(c, front[..k]), ReadLine(front[k])) {
        assert front[..k] == lines[..k] && front[k] == lines[k];
      }
      RunIsReported(c, front);
      FirstLength(AllFaults(c, front));
      LineStepped(c, Hashed(c, front), First64(AllFaults(c, front)), lines[n], n + 1);
      FirstOfFirst(AllFaults(c, front), AtLine(n + 1, LineReport(c, Hashed(c, front), ReadLine(lines[n]))));
    }
  }

  lemma NothingReported(c: VConfig)
    ensures Reported(c, []) == INITIAL
  {
  }

  lemma FirstLength(errors: seq<VError>)
    ensures |First64(errors)| <= 64
  {
  }

  /** While fewer than 64 faults have been found, a faulty line is recorded with its own first fault. */
  lemma FaultIsRecorded(c: VConfig, front: seq<string>, text: string)
    requires NeverStops(c, front + [text]) && |AllFaults(c, front)| < 64
    requires LineReport(c, Hashed(c, front), ReadLine(text)) != []
    ensures var errors := RunAll(c, front + [text]).errors;
            && |errors| > |AllFaults(c, front)|
            && errors[|AllFaults(c, front)|] ==
                 VError(|front| + 1, LineReport(c, Hashed(c, front), ReadLine(text))[0])
  {
    hide ReadLine, LineReport, Stops, Hashed;
    RunIsReported(c, front + [text]);
    assert (front + [text])[..|front|] == front && (front + [text])[|front|] == text;
  }

  // ---------- The line that ends the run ----------

  function StopReport(c: VConfig, es: seq<Entry>, e: Entry): seq<ErrorKind> {
    if IsInit(e) then
      if e.record.fp.None? then [MissingFingerprint]
      else if e.record.fp.value != c.fp then [FingerprintMismatch]
      else
        When(es != [] && c.strict && Tail(c, es) > 0, UnsignedBeforeSegment)
        + [if AlgFromHexLen(2 * |e.record.hash|).None? then UnsupportedLength else AlgorithmChanged]
    else if es == [] then [ExpectedInit]
    else When(e.record.number != NumberAt(es + [e], |es|), NumberMismatch) + [HashLengthChanged]
  }

  function LastReport(c: VConfig, es: seq<Entry>, reading: Reading): seq<ErrorKind> {
    match reading
    case Overrun => []
    case Unreadable => [NoElement]
    case Readable(e, certOk) => When(!certOk, CertMalformed) + StopReport(c, es, e)
  }

  /** The state behind it: the chain stays where it was, but an INIT of this key has closed its segment. */
  function StoppedState(c: VConfig, es: seq<Entry>, errors: seq<VError>, reading: Reading): VState {
    var s := StateOf(c, es, errors);
    match reading
    case Overrun => s.(phase := Lost)
    case Unreadable => s.(phase := Broken)
    case Readable(e, _) =>
      s.(phase := Broken,
         lastSigned := if IsInit(e) && e.record.fp == Some(c.fp) then 0 else s.lastSigned,
         segments := if es != [] && e.record.kind == ContinueType then s.segments + 1 else s.segments)
  }

  lemma StopInit(c: VConfig, es: seq<Entry>, x: seq<VError>, e: Entry, line: nat)
    requires |x| <= 64 && IsInit(e) && Stops(c, es, Readable(e, true))
    ensures ProcessEntry(c, StateOf(c, es, x), e, line) ==
            (StoppedState(c, es, Grow(x, line, StopReport(c, es, e)), Readable(e, true)), false)
  {
    hide CheckHash, HeadOf, SignedEnd, SignedCount, Segments, NumberAt, Grow, LogAlg, InitHash, Sub64, HashLen;
    var s := StateOf(c, es, x);
    GrowCheck(s, line, true, MissingFingerprint);
    GrowCheck(s, line, true, FingerprintMismatch);
    if e.record.fp == Some(c.fp) {
      var tail := es != [] && c.strict && Tail(c, es) > 0;
      var s1 := CloseSegment(c, s, line);
      GrowCheck(s, line, tail, UnsignedBeforeSegment);
      GrowNothing(x, line);
      assert s1 == s.(errors := Grow(x, line, When(tail, UnsignedBeforeSegment)), lastSigned := 0);
      GrowCheck(s1, line, true, UnsupportedLength);
      GrowCheck(s1, line, true, AlgorithmChanged);
      GrowTwice(x, line, When(tail, UnsignedBeforeSegment), [UnsupportedLength]);
      GrowTwice(x, line, When(tail, UnsignedBeforeSegment), [AlgorithmChanged]);
      if es != [] {
        WidthOk(c, LogAlg(es), e);
      }
    }
  }

  lemma StopOther(c: VConfig, es: seq<Entry>, x: seq<VError>, e: Entry, line: nat)
    requires |x| <= 64 && !IsInit(e) && Stops(c, es, Readable(e, true))
    ensures ProcessEntry(c, StateOf(c, es, x), e, line) ==
            (StoppedState(c, es, Grow(x, line, StopReport(c, es, e)), Readable(e, true)), false)
  {
    hide Link, HeadOf, SignedEnd, SignedCount, Segments, NumberAt, Grow, LogAlg;
    var s := StateOf(c, es, x);
    GrowCheck(s, line, true, ExpectedInit);
    if es != [] {
      NextHead(c, es, e);
      var number := e.record.number != s.next;
      GrowCheck(s, line, number, NumberMismatch);
      GrowCheck(s.(errors := Grow(x, line, When(number, NumberMismatch))), line, true, HashLengthChanged);
      GrowTwice(x, line, When(number, NumberMismatch), [HashLengthChanged]);
    }
  }

  lemma StopLine(c: VConfig, es: seq<Entry>, x: seq<VError>, text: string, line: nat)
    requires |x| <= 64 && Stops(c, es, ReadLine(text))
    ensures var reading := ReadLine(text);
            ProcessLine(c, StateOf(c, es, x), text, line) ==
              (StoppedState(c, es, Grow(x, line, LastReport(c, es, reading)), reading), false)
  {
    hide ReadLine, ProcessEntry, Grow, StopReport, HeadOf, SignedEnd, SignedCount, Segments, NumberAt, LogAlg;
    var s := StateOf(c, es, x);
    match ReadLine(text)
    case Unreadable => GrowCheck(s, line, true, NoElement);
    case Overrun => GrowNothing(x, line);
    case Readable(e, certOk) =>
      var cert := When(!certOk, CertMalformed);
      GrowCheck(s, line, !certOk, CertMalformed);
      if IsInit(e) {
        StopInit(c, es, Grow(x, line, cert), e, line);
      } else {
        StopOther(c, es, Grow(x, line, cert), e, line);
      }
      GrowTwice(x, line, cert, StopReport(c, es, e));
  }

  /** The first line that stops the run is reported and is the last one that matters. */
  lemma StopIsReported(c: VConfig, front: seq<string>, text: string, rest: seq<string>)
    requires NeverStops(c, front) && Stops(c, Hashed(c, front), ReadLine(text))
    ensures var (es, reading) := (Hashed(c, front), ReadLine(text));
            var faults := AllFaults(c, front) + AtLine(|front| + 1, LastReport(c, es, reading));
            RunAll(c, front + [text] + rest) == StoppedState(c, es, First64(faults), reading)
  {
    hide ReadLine, ProcessLine, Stops, Hashed, AllFaults, LastReport, StateOf, StoppedState;
    var (es, reading) := (Hashed(c, front), ReadLine(text));
    RunIsReported(c, front);
    FirstLength(AllFaults(c, front));
    StopLine(c, es, First64(AllFaults(c, front)), text, |front| + 1);
    FirstOfFirst(AllFaults(c, front), AtLine(|front| + 1, LastReport(c, es, reading)));
    RunSnoc(c, front, text);
    var lines := front + [text] + rest;
    assert lines[..|front| + 1] == front + [text];
    StoppedIsStopped(c, es, First64(AllFaults(c, front) + AtLine(|front| + 1, LastReport(c, es, reading))), reading);
    StoppedRun(c, lines, |front| + 1);
  }

  lemma StoppedIsStopped(c: VConfig, es: seq<Entry>, errors: seq<VError>, reading: Reading)
    ensures Stopped(StoppedState(c, es, errors, reading))
  {
  }

  /** At the end of a log that no line stops, only an empty file and a strict tail are added. */
  lemma EndIsReported(c: VConfig, lines: seq<string>)
    requires NeverStops(c, lines)
    ensures var es := Hashed(c, lines);
            var last := When(lines == [], EmptyFile) + When(c.strict && es != [] && Tail(c, es) > 0, UnsignedTail);
            Finalize(c, RunAll(c, lines)) ==
              Reported(c, lines).(phase := Done, errors := First64(AllFaults(c, lines) + AtLine(0, last)))
  {
    hide ReadLine, Stops, Hashed, HeadOf, SignedEnd, SignedCount, Segments, NumberAt, LogAlg, Grow, AllFaults, RunAll;
    var (es, s) := (Hashed(c, lines), Reported(c, lines));
    var tail := c.strict && es != [] && Tail(c, es) > 0;
    RunIsReported(c, lines);
    HashedIsEmpty(c, lines);
    FirstLength(AllFaults(c, lines));
    GrowCheck(s, 0, lines == [], EmptyFile);
    var s1 := s.(errors := Grow(s.errors, 0, When(lines == [], EmptyFile)));
    GrowCheck(s1, 0, tail, UnsignedTail);
    GrowTwice(s.errors, 0, When(lines == [], EmptyFile), When(tail, UnsignedTail));
    GrowIs(AllFaults(c, lines), 0, When(lines == [], EmptyFile) + When(tail, UnsignedTail));
  }

  lemma GrowIs(all: seq<VError>, line: nat, kinds: seq<ErrorKind>)
    ensures Grow(First64(all), line, kinds) == First64(all + AtLine(line, kinds))
  {
    FirstOfFirst(all, AtLine(line, kinds));
  }

  /** The first line of a log that no line stops is numbered. */
  lemma {:induction false} HashedIsEmpty(c: VConfig, lines: seq<string>)
    requires NeverStops(c, lines)
    ensures Hashed(c, lines) == [] <==> lines == []
  {
    hide ReadLine;
    if lines != [] {
      var n := |lines| - 1;
      forall k | 0 <= k < n ensures !Stops(c, Hashed(c, lines[..n][..k]), ReadLine(lines[..n][k])) {
        assert lines[..n][..k] == lines[..k];
      }
      HashedIsEmpty(c, lines[..n]);
      assert !Stops(c, Hashed(c, lines[..n]), ReadLine(lines[n]));
    }
  }

  // ---------- What follows a change ----------

  lemma {:induction false} HashedAll(c: VConfig, lines: seq<string>, es: seq<Entry>)
    requires |lines| == |es|
    requires forall k :: 0 <= k < |es| ==> ReadLine(lines[k]) == Readable(es[k], true) && IsHashed(c, es[k])
    ensures Hashed(c, lines) == es
  {
    hide ReadLine, IsHashed;
    if lines != [] {
      var n := |lines| - 1;
      HashedAll(c, lines[..n], es[..n]);
      assert es == es[..n] + [es[n]];
    }
  }

  lemma {:induction false} FaultsInclude(c: VConfig, lines: seq<string>, j: nat, kind: ErrorKind)
    requires j < |lines| && kind in LineReport(c, Hashed(c, lines[..j]), ReadLine(lines[j]))
    ensures VError(j + 1, kind) in AllFaults(c, lines)
  {
    hide ReadLine, LineReport, Hashed;
    var n := |lines| - 1;
    var last := LineReport(c, Hashed(c, lines[..n]), ReadLine(lines[n]));
    if j == n {
      var k :| 0 <= k < |last| && last[k] == kind;
      assert AtLine(n + 1, last)[k] == VError(j + 1, kind);
    } else {
      assert lines[..n][..j] == lines[..j];
      FaultsInclude(c, lines[..n], j, kind);
    }
  }

  /** The entries of a good log with the payload of one line replaced. */
  function Altered(es: seq<Entry>, i: nat, x: string): (r: seq<Entry>)
    requires i < |es|
    ensures |r| == |es|
  {
    es[i := es[i].(payload := x)]
  }

  lemma {:induction false} AlteredStart(es: seq<Entry>, i: nat, x: string, j: nat)
    requires i < |es| && j < |es|
    ensures SegStart(Altered(es, i, x), j) == SegStart(es, j)
  {
    if j > 0 {
      AlteredStart(es, i, x, j - 1);
    }
  }

  lemma AlteredPayloads(es: seq<Entry>, i: nat, x: string, j: nat)
    requires i <= j < |es| && SegStart(es, j) <= i && x != es[i].payload
    ensures SegPayloads(Altered(es, i, x), j) != SegPayloads(es, j)
  {
    hide SegStart;
    AlteredStart(es, i, x, j);
    var (start, es') := (SegStart(es, j), Altered(es, i, x));
    assert SegPayloads(es', j)[i - start] == es'[start..j + 1][i - start].payload == x;
    assert SegPayloads(es, j)[i - start] == es[start..j + 1][i - start].payload == es[i].payload;
  }

  /** Behind any lines of a good log, altered or not, none of its lines stops the run. */
  lemma AlteredRuns(c: VConfig, es: seq<Entry>, i: nat, x: string, k: nat)
    requires LogOk(c, es) && i < |es| && k < |es|
    ensures var es' := Altered(es, i, x);
            IsHashed(c, es'[k]) && !Stops(c, es'[..k], Readable(es'[k], true))
    ensures k > 0 ==> LogAlg(Altered(es, i, x)[..k]) == LogAlg(es)
    ensures LogAlg(Altered(es, i, x)[..k + 1]) == LogAlg(es)
  {
    hide Fold, SegPayloads, NumberAt, SignedBefore;
    var es' := Altered(es, i, x);
    assert es'[k].record == es[k].record && es'[0].record == es[0].record;
    assert LineOk(c, LogAlg(es), es, k) && LineOk(c, LogAlg(es), es, 0);
    AlgRoundTrip(LogAlg(es));
    assert |es[k].record.hash| == HashLen(LogAlg(es));
  }

  /**
   * Behind a changed payload the chain never recovers: every later line of the segment is reported as a
   * hash mismatch, or the payloads before and after the change are walked back to a collision.
   */
  lemma AlteredTailIsReported(c: VConfig, lines: seq<string>, i: nat, text: string, x: string, j: nat)
    requires Accepts(c, lines) && AllReadable(lines) && i <= j < |lines| && SegStart(Entries(lines), j) <= i
    requires ReadLine(text) == Readable(Entries(lines)[i].(payload := x), true) && x != Entries(lines)[i].payload
    ensures var es := Entries(lines);
            var es' := Altered(es, i, x);
            && NeverStops(c, lines[i := text]) && Hashed(c, lines[i := text]) == es'
            && ( || VError(j + 1, HashMismatch) in AllFaults(c, lines[i := text])
                 || ( && SegPayloads(es, j) != SegPayloads(es', j)
                      && Fold(c.prims, LogAlg(es), SegPayloads(es, j)) == Fold(c.prims, LogAlg(es), SegPayloads(es', j))
                      && IsCollision(c.prims, LogAlg(es),
                                     FindCollision(c.prims, LogAlg(es), SegPayloads(es, j), SegPayloads(es', j)))))
  {
    hide ReadLine, Accepts, Fold, SegPayloads, SegStart, LogAlg, Stops, IsHashed, LogOk, LineReport;
    AcceptanceIsLogOk(c, lines);
    var es := Entries(lines);
    var (es', lines') := (Altered(es, i, x), lines[i := text]);
    forall k | 0 <= k < |es'| ensures ReadLine(lines'[k]) == Readable(es'[k], true) && IsHashed(c, es'[k]) {
      AlteredRuns(c, es, i, x, k);
      assert IsReadable(lines[k]);
    }
    HashedAll(c, lines', es');
    forall k | 0 <= k < |lines'| ensures !Stops(c, Hashed(c, lines'[..k]), ReadLine(lines'[k])) {
      HashedAll(c, lines'[..k], es'[..k]);
      AlteredRuns(c, es, i, x, k);
    }
    AlteredPayloads(es, i, x, j);
    HashedAll(c, lines'[..j], es'[..j]);
    ChainBinding(c.prims, LogAlg(es), SegPayloads(es, j), SegPayloads(es', j));
    if Fold(c.prims, LogAlg(es), SegPayloads(es, j)) != Fold(c.prims, LogAlg(es), SegPayloads(es', j)) {
      AlteredLine(c, es, i, x, j);
      FaultsInclude(c, lines', j, HashMismatch);
    }
  }

  lemma AlteredLine(c: VConfig, es: seq<Entry>, i: nat, x: string, j: nat)
    requires LogOk(c, es) && i < |es| && j < |es|
    requires var es' := Altered(es, i, x);
             Fold(c.prims, LogAlg(es), SegPayloads(es, j)) != Fold(c.prims, LogAlg(es), SegPayloads(es', j))
    ensures var es' := Altered(es, i, x); HashMismatch in LineReport(c, es'[..j], Readable(es'[j], true))
  {
    hide Fold, SegPayloads, NumberAt, LogAlg, SigReport, Tail;
    var es' := Altered(es, i, x);
    AlteredRuns(c, es, i, x, j);
    assert LineOk(c, LogAlg(es), es, j);
    assert es'[..j] + [es'[j]] == es'[..j + 1] && es'[..j + 1] + es'[j + 1..] == es';
    PrefixAgrees(es'[..j + 1], es'[j + 1..], j);
    assert HashMismatch in When(es'[j].record.hash != HeadOf(c, es'[..j + 1]), HashMismatch);
  }
}

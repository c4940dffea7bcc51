/**
 * The log verifier: its state, one step per line as a function, and the object whose handlers
 * update that state in place.
 */
module LogVerifier {
  import opened Octets
  import opened Crypto
  import opened SdRecords
  import SdBuffers

  const MSG_BUF_LEN: nat := 8192
  const MAX_ERRORS: nat := 64

  /** `Lost`: a decoder wrote past its buffer, after which the source's behaviour is undefined. */
  datatype Phase = ExpectInit | Processing | Done | Broken | Lost

  datatype ErrorKind =
    | NoElement | CertMalformed | ExpectedInit | MissingFingerprint | FingerprintMismatch
    | UnsignedBeforeSegment | UnsupportedLength | AlgorithmChanged
    | NumberMismatch | HashLengthChanged | HashMismatch
    | MessageBeforeInit | SigBeforeInit | MissingSignature | FromMismatch | ToMismatch
    | SignatureInvalid | SignatureError | ContinueBeforeInit | ContinueFingerprintMismatch
    | UnknownType | EmptyFile | UnsignedTail

  datatype VError = VError(line: nat, kind: ErrorKind)

  datatype VState = VState(
    phase: Phase, alg: HashAlg, haveAlg: bool, head: octets, next: nat, lastSigned: nat,
    messages: nat, signatures: nat, segments: nat, errors: seq<VError>)

  /** The trusted key's fingerprint and primitives, and the mode. */
  datatype VConfig = VConfig(prims: Primitives, fp: octets, strict: bool)

  datatype Entry = Entry(record: Record, payload: string)

  /**
   * What a line gives the verifier: an entry, with or without a malformed certificate beside it, or a
   * write past the signature field or the certificate buffer.
   */
  datatype Reading = Unreadable | Overrun | Readable(entry: Entry, certOk: bool)

  function ReadLine(line: string): Reading {
    ReadStripped(StripLine(line, MSG_BUF_LEN))
  }

  /** The same for a line that is followed in memory by the character `behind`. */
  function ReadLineBefore(line: string, behind: char): Reading {
    ReadStripped(StripLineBefore(line, behind, MSG_BUF_LEN))
  }

  /** Only a closing bracket behind the line can matter. */
  lemma BehindIsNoMatter(line: string, behind: char)
    requires behind != ']'
    ensures ReadLineBefore(line, behind) == ReadLine(line)
  {
  }

  function ReadStripped(strip: Strip): Reading {
    match strip
    case NotStripped => Unreadable
    case StripOverrun => Overrun
    case Stripped(msg, record) =>
      match ExtractCert(msg, MSG_BUF_LEN, CERT_DER_MAX)
      case BadCert => Readable(Entry(record, msg), false)
      case NoCert => Readable(Entry(record, msg), true)
      case Cert(_, rest) => Readable(Entry(record, rest), true)
      case CertOverrun => Overrun
  }

  /** Unsigned 64-bit subtraction: a negative difference wraps. */
  function Sub64(a: nat, b: nat): nat {
    if b <= a then a - b else (a - b) % TWO_64
  }

  /** Unsigned 64-bit predecessor. */
  function Pred64(a: nat): nat {
    if a == 0 then TWO_64 - 1 else a - 1
  }

  /** Unsigned 64-bit successor. */
  function Succ64(a: nat): nat {
    if a == TWO_64 - 1 then 0 else a + 1
  }

  const INITIAL: VState := VState(ExpectInit, Sha256, false, [], 1, 0, 0, 0, 0, [])

  function AddError(s: VState, line: nat, kind: ErrorKind): VState {
    if |s.errors| >= MAX_ERRORS then s else s.(errors := s.errors + [VError(line, kind)])
  }

  function Check(s: VState, ok: bool, line: nat, kind: ErrorKind): VState {
    if ok then s else AddError(s, line, kind)
  }

  function Break(s: VState, line: nat, kind: ErrorKind): (VState, bool) {
    (AddError(s, line, kind).(phase := Broken), false)
  }

  function CheckHash(c: VConfig, s: VState, e: Entry, line: nat): (VState, bool) {
    var s1 := Check(s, e.record.number == s.next, line, NumberMismatch);
    if |e.record.hash| != HashLen(s.alg) then Break(s1, line, HashLengthChanged) else
      var s2 := s1.(head := Link(c.prims, s.alg, s.head, s.next, e.payload));
      var s3 := Check(s2, s2.head == e.record.hash, line, HashMismatch);
      (s3.(next := s.next + 1, messages := s.messages + 1), true)
  }

  function HandleInit(c: VConfig, s: VState, e: Entry, line: nat): (VState, bool) {
    if e.record.fp.None? then Break(s, line, MissingFingerprint)
    else if e.record.fp.value != c.fp then Break(s, line, FingerprintMismatch)
    else
      var s1 := CloseSegment(c, s, line);
      var alg := AlgFromHexLen(2 * |e.record.hash|);
      if alg.None? then Break(s1, line, UnsupportedLength)
      else if s.haveAlg && s.alg != alg.value then Break(s1, line, AlgorithmChanged)
      else CheckHash(c, OpenSegment(c, s1, alg.value), e, line)
  }

  /** An open segment ends: strict mode reports an unsigned tail. */
  function CloseSegment(c: VConfig, s: VState, line: nat): (r: VState)
    ensures r.alg == s.alg && r.haveAlg == s.haveAlg && r.phase == s.phase && r.next == s.next
  {
    if s.phase != Processing then s else
      var tail := Sub64(Pred64(s.next), s.lastSigned);
      Check(s, !(tail > 0 && c.strict), line, UnsignedBeforeSegment).(lastSigned := 0)
  }

  function OpenSegment(c: VConfig, s: VState, alg: HashAlg): VState {
    s.(alg := alg, haveAlg := true, head := InitHash(c.prims, alg), next := 1,
       segments := s.segments + 1, phase := Processing)
  }

  function HandleMsg(c: VConfig, s: VState, e: Entry, line: nat): (VState, bool) {
    if s.phase != Processing then Break(s, line, MessageBeforeInit) else CheckHash(c, s, e, line)
  }

  function HandleSig(c: VConfig, s: VState, e: Entry, line: nat): (VState, bool) {
    if s.phase != Processing then (AddError(s, line, SigBeforeInit), true) else
      var (s1, ok) := CheckHash(c, s, e, line);
      if !ok then (s1, false)
      else if e.record.signature.None? then (AddError(s1, line, MissingSignature), true)
      else
        var s2 := Check(s1, e.record.sigFrom == Succ64(s1.lastSigned), line, FromMismatch);
        var s3 := Check(s2, e.record.sigTo == s1.next - 1, line, ToMismatch);
        match c.prims.check(s1.head, e.record.signature.value)
        case Valid => (s3.(lastSigned := e.record.sigTo, signatures := s.signatures + 1), true)
        case Invalid => (AddError(s3, line, SignatureInvalid), true)
        case Failed => (AddError(s3, line, SignatureError), true)
  }

  function HandleContinue(c: VConfig, s: VState, e: Entry, line: nat): (VState, bool) {
    if s.phase != Processing then (AddError(s, line, ContinueBeforeInit), true)
    else if e.record.fp.Some? && e.record.fp.value != c.fp then
      (AddError(s, line, ContinueFingerprintMismatch), true)
    else CheckHash(c, s.(segments := s.segments + 1), e, line)
  }

  function ProcessEntry(c: VConfig, s: VState, e: Entry, line: nat): (VState, bool) {
    if s.phase == ExpectInit && e.record.kind != InitType then Break(s, line, ExpectedInit)
    else
      match e.record.kind
      case InitType => HandleInit(c, s, e, line)
      case SigType => HandleSig(c, s, e, line)
      case ContinueType => HandleContinue(c, s, e, line)
      case MsgType => HandleMsg(c, s, e, line)
      case OtherType(_) => (AddError(s, line, UnknownType), true)
  }

  /** The verifier takes no further line. */
  predicate Stopped(s: VState) {
    s.phase in {Broken, Done, Lost}
  }

  /** One line; the flag is false when the caller must stop. */
  function ProcessLine(c: VConfig, s: VState, text: string, line: nat): (VState, bool) {
    ProcessReading(c, s, ReadLine(text), line)
  }

  function ProcessReading(c: VConfig, s: VState, reading: Reading, line: nat): (VState, bool) {
    if Stopped(s) then (s, false)
    else
      match reading
      case Overrun => (s.(phase := Lost), false)
      case Unreadable =>
        if s.phase == ExpectInit then Break(s, line, NoElement) else (AddError(s, line, NoElement), true)
      case Readable(e, certOk) => ProcessEntry(c, Check(s, certOk, line, CertMalformed), e, line)
  }

  function Finalize(c: VConfig, s: VState): VState {
    if s.phase == Lost then s
    else
      var s1 := Check(s, s.phase != ExpectInit, 0, EmptyFile);
      var tail := Sub64(Pred64(s.next), s.lastSigned);
      Check(s1, !(c.strict && tail > 0), 0, UnsignedTail).(phase := Done)
  }

  /** The verifier after every line of a log, in order, numbered from one. */
  function RunAll(c: VConfig, lines: seq<string>): VState {
    if lines == [] then INITIAL
    else
      var n := |lines|;
      ProcessLine(c, RunAll(c, lines[..n - 1]), lines[n - 1], n).0
  }

  /** The file passes, having been read to its end without a write out of bounds. */
  predicate Accepts(c: VConfig, lines: seq<string>) {
    var s := Finalize(c, RunAll(c, lines));
    s.errors == [] && s.phase == Done
  }

  /** Once a step has refused, every later step refuses and changes nothing. */
  lemma RefusalIsFinal(c: VConfig, s: VState, text: string, line: nat)
    ensures var (s', ok) := ProcessLine(c, s, text, line); !ok ==> Stopped(s')
  {
    hide ReadLine, Link, InitHash;
  }

  lemma {:induction false} StoppedRun(c: VConfig, lines: seq<string>, n: nat)
    requires n <= |lines|
    requires Stopped(RunAll(c, lines[..n]))
    ensures RunAll(c, lines) == RunAll(c, lines[..n])
    decreases |lines| - n
  {
    hide ReadLine, ProcessEntry;
    if n == |lines| {
      assert lines[..n] == lines;
    } else {
      assert lines[..n + 1][..n] == lines[..n];
      StoppedRun(c, lines, n + 1);
    }
  }

  // ---------- The object ----------

  class Verifier {
    const prims: Primitives
    const fp: octets
    const strict: bool
    var phase: Phase
    var alg: HashAlg
    var haveAlg: bool
    var chainHash: octets
    var nextSeq: nat
    var lastSigned: nat
    var msgCount: nat
    var sigCount: nat
    var segmentCount: nat
    var errors: seq<VError>

    ghost function State(): VState
      reads this
    {
      VState(phase, alg, haveAlg, chainHash, nextSeq, lastSigned, msgCount, sigCount, segmentCount, errors)
    }

    ghost function Config(): VConfig {
      VConfig(prims, fp, strict)
    }

    ghost predicate Valid()
      reads this
    {
      nextSeq > 0
    }

    constructor (prims: Primitives, fp: octets, strict: bool)
      ensures Valid() && State() == INITIAL && Config() == VConfig(prims, fp, strict)
    {
      this.prims, this.fp, this.strict := prims, fp, strict;
      phase, alg, haveAlg, chainHash := ExpectInit, Sha256, false, [];
      nextSeq, lastSigned, msgCount, sigCount, segmentCount, errors := 1, 0, 0, 0, 0, [];
    }

    method RecordError(line: nat, kind: ErrorKind)
      modifies this`errors
      ensures State() == AddError(old(State()), line, kind)
    {
      if |errors| >= MAX_ERRORS {
        return;
      }
      errors := errors + [VError(line, kind)];
    }

    method VerifyHash(e: Entry, line: nat) returns (ok: bool)
      requires Valid()
      modifies this
      ensures Valid() && (State(), ok) == CheckHash(Config(), old(State()), e, line)
    {
      if e.record.number != nextSeq {
        RecordError(line, NumberMismatch);
      }
      if |e.record.hash| != HashLen(alg) {
        RecordError(line, HashLengthChanged);
        phase := Broken;
        return false;
      }
      chainHash := Link(prims, alg, chainHash, nextSeq, e.payload);
      if chainHash != e.record.hash {
        RecordError(line, HashMismatch);
      }
      nextSeq := nextSeq + 1;
      msgCount := msgCount + 1;
      return true;
    }

    method OnInit(e: Entry, line: nat) returns (ok: bool)
      requires Valid()
      modifies this
      ensures Valid() && (State(), ok) == HandleInit(Config(), old(State()), e, line)
    {
      hide CloseSegment, OpenSegment, CheckHash;
      if e.record.fp.None? {
        RecordError(line, MissingFingerprint);
        phase := Broken;
        return false;
      }
      if e.record.fp.value != fp {
        RecordError(line, FingerprintMismatch);
        phase := Broken;
        return false;
      }
      LeaveSegment(line);
      var found := AlgFromHexLen(2 * |e.record.hash|);
      if found.None? {
        RecordError(line, UnsupportedLength);
        phase := Broken;
        return false;
      }
      if haveAlg && alg != found.value {
        RecordError(line, AlgorithmChanged);
        phase := Broken;
        return false;
      }
      EnterSegment(found.value);
      ok := VerifyHash(e, line);
    }

    method LeaveSegment(line: nat)
      requires Valid()
      modifies this
      ensures Valid() && State() == CloseSegment(Config(), old(State()), line)
    {
      if phase == Processing {
        var tail := Sub64(nextSeq - 1, lastSigned);
        if tail > 0 && strict {
          RecordError(line, UnsignedBeforeSegment);
        }
        lastSigned := 0;
      }
    }

    method EnterSegment(found: HashAlg)
      requires Valid()
      modifies this
      ensures Valid() && State() == OpenSegment(Config(), old(State()), found)
    {
      alg := found;
      haveAlg := true;
      chainHash := InitHash(prims, alg);
      nextSeq := 1;
      segmentCount := segmentCount + 1;
      phase := Processing;
    }

    method OnMsg(e: Entry, line: nat) returns (ok: bool)
      requires Valid()
      modifies this
      ensures Valid() && (State(), ok) == HandleMsg(Config(), old(State()), e, line)
    {
      if phase != Processing {
        RecordError(line, MessageBeforeInit);
        phase := Broken;
        return false;
      }
      ok := VerifyHash(e, line);
    }

    method OnSig(e: Entry, line: nat) returns (ok: bool)
      requires Valid()
      modifies this
      ensures Valid() && (State(), ok) == HandleSig(Config(), old(State()), e, line)
    {
      if phase != Processing {
        RecordError(line, SigBeforeInit);
        return true;
      }
      ok := VerifyHash(e, line);
      if !ok {
        return false;
      }
      if e.record.signature.None? {
        RecordError(line, MissingSignature);
        return true;
      }
      var expFrom := Succ64(lastSigned);
      var expTo := nextSeq - 1;
      if e.record.sigFrom != expFrom {
        RecordError(line, FromMismatch);
      }
      if e.record.sigTo != expTo {
        RecordError(line, ToMismatch);
      }
      var verdict := prims.check(chainHash, e.record.signature.value);
      if verdict == Invalid {
        RecordError(line, SignatureInvalid);
      } else if verdict == Failed {
        RecordError(line, SignatureError);
      }
      if verdict.Valid? {
        lastSigned := e.record.sigTo;
        sigCount := sigCount + 1;
      }
      return true;
    }

    method OnContinue(e: Entry, line: nat) returns (ok: bool)
      requires Valid()
      modifies this
      ensures Valid() && (State(), ok) == HandleContinue(Config(), old(State()), e, line)
    {
      if phase != Processing {
        RecordError(line, ContinueBeforeInit);
        return true;
      }
      if e.record.fp.Some? && e.record.fp.value != fp {
        RecordError(line, ContinueFingerprintMismatch);
        return true;
      }
      segmentCount := segmentCount + 1;
      ok := VerifyHash(e, line);
    }

    /** Strips the line, then its certificate, in one buffer.  `behind` is the byte that follows the line. */
    method Read(text: string, behind: char) returns (r: Reading)
      ensures r == ReadLineBefore(text, behind)
    {
      hide StripLineBefore, ExtractCert;
      var msg := new char[MSG_BUF_LEN];
      var msgLen, parse := SdBuffers.StripSdFromLine(text, behind, msg);
      if parse.ParseOverrun? {
        return Overrun;
      }
      if msgLen < 0 {
        return Unreadable;
      }
      ghost var stripped := msg[..msgLen];
      var der := new byte[CERT_DER_MAX];
      var certRc, newLen, _, overrun := SdBuffers.ExtractAndStripCert(msg, msgLen, msg, der);
      if overrun {
        return Overrun;
      }
      if certRc < 0 {
        newLen := msgLen;
        assert msg[..newLen] == stripped;
      }
      return Readable(Entry(parse.record, msg[..newLen]), certRc >= 0);
    }

    /** Reads one line and dispatches on its record type. */
    method OnLine(text: string, behind: char, line: nat) returns (ok: bool)
      requires Valid()
      modifies this
      ensures Valid()
      ensures (State(), ok) == ProcessReading(Config(), old(State()), ReadLineBefore(text, behind), line)
    {
      hide ReadLineBefore, ProcessEntry;
      if phase == Broken || phase == Done || phase == Lost {
        return false;
      }
      var reading := Read(text, behind);
      match reading {
        case Overrun =>
          phase := Lost;
          ok := false;
        case Unreadable =>
          RecordError(line, NoElement);
          ok := phase != ExpectInit;
          if !ok {
            phase := Broken;
          }
        case Readable(e, certOk) =>
          if !certOk {
            RecordError(line, CertMalformed);
          }
          ok := OnEntry(e, line);
      }
    }

    method OnEntry(e: Entry, line: nat) returns (ok: bool)
      requires Valid()
      modifies this
      ensures Valid() && (State(), ok) == ProcessEntry(Config(), old(State()), e, line)
    {
      if phase == ExpectInit && e.record.kind != InitType {
        RecordError(line, ExpectedInit);
        phase := Broken;
        return false;
      }
      match e.record.kind {
        case InitType => ok := OnInit(e, line);
        case SigType => ok := OnSig(e, line);
        case ContinueType => ok := OnContinue(e, line);
        case MsgType => ok := OnMsg(e, line);
        case OtherType(_) =>
          RecordError(line, UnknownType);
          ok := true;
      }
    }

    method Finish()
      requires Valid()
      modifies this
      ensures Valid() && State() == Finalize(Config(), old(State()))
    {
      if phase == Lost {
        return;
      }
      if phase == ExpectInit {
        RecordError(0, EmptyFile);
      }
      var unsigned := Sub64(nextSeq - 1, lastSigned);
      if strict && unsigned > 0 {
        RecordError(0, UnsignedTail);
      }
      phase := Done;
    }
  }

  // ---------- The file ----------

  /** Where the first line of the text ends, its newline included. */
  function LineEnd(text: string): (n: nat)
    ensures n <= |text| && (text != "" ==> n > 0)
    ensures '\n' !in text[..n] || (n > 0 && text[n - 1] == '\n' && '\n' !in text[..n - 1])
  {
    if text == "" then 0
    else if text[0] == '\n' then 1
    else
      assert text[..1 + LineEnd(text[1..])] == [text[0]] + text[1..][..LineEnd(text[1..])];
      1 + LineEnd(text[1..])
  }

  /** A line without the newlines and carriage returns at its end. */
  function Trimmed(line: string): (r: string)
    ensures r <= line
  {
    if line != "" && line[|line| - 1] in {'\n', '\r'} then Trimmed(line[..|line| - 1]) else line
  }

  /** The lines of a text as they reach the verifier; a last line needs no newline. */
  function FileLines(text: string): seq<string> {
    if text == "" then []
    else
      var n := LineEnd(text);
      [Trimmed(text[..n])] + FileLines(text[n..])
  }

  method TrimLine(line: string) returns (r: string)
    ensures r == Trimmed(line)
    ensures |r| < |line| ==> line[|r|] in {'\n', '\r'}
  {
    var n := |line|;
    assert line[..n] == line;
    while n > 0 && line[n - 1] in {'\n', '\r'}
      invariant n <= |line| && Trimmed(line[..n]) == Trimmed(line)
      invariant n < |line| ==> line[n] in {'\n', '\r'}
    {
      n := n - 1;
      assert line[..n + 1][..n] == line[..n];
    }
    return line[..n];
  }

  method ReadFileLine(text: string, pos: nat) returns (next: nat)
    requires pos < |text|
    ensures next == pos + LineEnd(text[pos..])
  {
    next := pos;
    while next < |text| && text[next] != '\n'
      invariant pos <= next <= |text|
      invariant pos + LineEnd(text[pos..]) == next + LineEnd(text[next..])
    {
      assert text[next..][1..] == text[next + 1..];
      next := next + 1;
    }
    if next < |text| {
      next := next + 1;
    }
  }

  /** Reads and trims one line.  Behind it stands its own ending, or the terminator of the text. */
  method TakeLine(text: string, pos: nat) returns (line: string, behind: char, next: nat)
    requires pos < |text|
    ensures next == pos + LineEnd(text[pos..]) && pos < next <= |text|
    ensures line == Trimmed(text[pos..next]) && behind != ']'
  {
    hide LineEnd, Trimmed;
    next := ReadFileLine(text, pos);
    line := TrimLine(text[pos..next]);
    behind := if |line| < next - pos then text[pos + |line|] else '\0';
    assert |line| < next - pos ==> behind == text[pos..next][|line|];
  }

  /** The command line's loop: feed the lines of the text until one is refused, then finish. */
  method VerifyFile(prims: Primitives, fp: octets, strict: bool, text: string)
    returns (passed: bool, v: Verifier)
    ensures fresh(v)
    ensures v.State() == Finalize(VConfig(prims, fp, strict), RunAll(VConfig(prims, fp, strict), FileLines(text)))
    ensures passed <==> v.errors == []
    ensures passed && v.phase == Done <==> Accepts(VConfig(prims, fp, strict), FileLines(text))
  {
    hide ProcessReading, ReadLine, ReadLineBefore, Finalize, LineEnd, Trimmed, RunAll, FileLines;
    v := new Verifier(prims, fp, strict);
    var c := VConfig(prims, fp, strict);
    ghost var lines := FileLines(text);
    var n, pos := 0, 0;
    assert lines[0..] == lines && text[0..] == text;
    RunNone(c, lines);
    while pos < |text|
      invariant n <= |lines| && pos <= |text| && lines[n..] == FileLines(text[pos..])
      invariant v.Valid() && fresh(v) && v.Config() == c
      invariant v.State() == RunAll(c, lines[..n])
      decreases |text| - pos
    {
      var line, behind, next := TakeLine(text, pos);
      NextFileLine(text, pos, lines, n);
      RunNext(c, lines, n);
      RefusalIsFinal(c, v.State(), line, n + 1);
      BehindIsNoMatter(line, behind);
      var ok := v.OnLine(line, behind, n + 1);
      n, pos := n + 1, next;
      if !ok {
        break;
      }
    }
    if Stopped(v.State()) {
      StoppedRun(c, lines, n);
    } else {
      NoFileLines(text, pos);
      assert lines[..n] == lines;
    }
    v.Finish();
    passed := v.errors == [];
  }

  lemma NoFileLines(text: string, pos: nat)
    requires pos == |text|
    ensures FileLines(text[pos..]) == []
  {
  }

  lemma RunNone(c: VConfig, lines: seq<string>)
    ensures RunAll(c, lines[..0]) == INITIAL
  {
  }

  lemma RunNext(c: VConfig, lines: seq<string>, n: nat)
    requires n < |lines|
    ensures RunAll(c, lines[..n + 1]) == ProcessLine(c, RunAll(c, lines[..n]), lines[n], n + 1).0
  {
    hide ProcessLine;
    assert lines[..n + 1][..n] == lines[..n];
  }

  lemma NextFileLine(text: string, pos: nat, lines: seq<string>, n: nat)
    requires pos < |text| && n <= |lines| && lines[n..] == FileLines(text[pos..])
    ensures n < |lines|
    ensures var next := pos + LineEnd(text[pos..]);
            next <= |text| && lines[n] == Trimmed(text[pos..next]) && lines[n + 1..] == FileLines(text[next..])
  {
    var rest := text[pos..];
    var k := LineEnd(rest);
    assert rest[..k] == text[pos..pos + k] && rest[k..] == text[pos + k..];
    assert lines[n..][0] == lines[n] && lines[n..][1..] == lines[n + 1..];
    assert ([Trimmed(rest[..k])] + FileLines(rest[k..]))[1..] == FileLines(rest[k..]);
  }

  /** A line that a file carries unchanged. */
  predicate IsFileLine(line: string) {
    '\n' !in line && (line != "" ==> line[|line| - 1] != '\r')
  }

  predicate AreFileLines(lines: seq<string>) {
    forall k :: 0 <= k < |lines| ==> IsFileLine(lines[k])
  }

  function Written(lines: seq<string>): string {
    if lines == [] then "" else lines[0] + "\n" + Written(lines[1..])
  }

  /** Lines written one by one are read back unchanged exactly when the file carries each of them. */
  lemma FileRoundTrip(lines: seq<string>)
    ensures FileLines(Written(lines)) == lines <==> AreFileLines(lines)
  {
    FileLinesAreTrimmed(Written(lines));
    if AreFileLines(lines) {
      WrittenLinesRead(lines);
    }
  }

  /** What the file gives back of a line: all up to its first newline, trimmed. */
  function FirstPiece(line: string): (r: string) {
    Trimmed((line + "\n")[..LineEnd(line + "\n")])
  }

  lemma {:induction false} LineEndSkips(front: string, rest: string)
    requires '\n' !in front
    ensures LineEnd(front + rest) == |front| + LineEnd(rest)
  {
    if front == "" {
      assert front + rest == rest;
    } else {
      LineEndSkips(front[1..], rest);
      assert (front + rest)[1..] == front[1..] + rest;
    }
  }

  lemma {:induction false} TrimmedBehind(front: string, rest: string)
    requires front != "" && front[|front| - 1] !in {'\n', '\r'}
    ensures Trimmed(front + rest) == front + Trimmed(rest)
  {
    var s := front + rest;
    if rest == "" {
      assert s == front;
    } else {
      assert s[|s| - 1] == rest[|rest| - 1] && s[..|s| - 1] == front + rest[..|rest| - 1];
      if rest[|rest| - 1] in {'\n', '\r'} {
        TrimmedBehind(front, rest[..|rest| - 1]);
      }
    }
  }

  /** Behind a front without newlines, what is lost of a line is lost of its tail. */
  lemma PieceBehind(front: string, tail: string)
    requires front != "" && '\n' !in front && front[|front| - 1] != '\r'
    ensures FirstPiece(front + tail) == front + FirstPiece(tail)
  {
    hide LineEnd, Trimmed;
    assert front[|front| - 1] in front;
    var n := LineEnd(tail + "\n");
    assert front + tail + "\n" == front + (tail + "\n");
    LineEndSkips(front, tail + "\n");
    assert (front + (tail + "\n"))[..|front| + n] == front + (tail + "\n")[..n];
    TrimmedBehind(front, (tail + "\n")[..n]);
  }

  /** The piece is a beginning of the line, and the line itself exactly when the file carries it. */
  lemma PieceIsPart(line: string)
    ensures FirstPiece(line) <= line
    ensures FirstPiece(line) == line <==> IsFileLine(line)
  {
    hide LineEnd, Trimmed;
    var text := line + "\n";
    var n := LineEnd(text);
    TrimmedIsFileLine(text[..n]);
    assert text[..|text|] == text;
    TrimmedDropsNewline(text);
    assert FirstPiece(line) == text[..n][..|FirstPiece(line)|] == text[..|FirstPiece(line)|];
    if IsFileLine(line) {
      FirstWrittenLine(line, "");
      PieceLeads(line);
      assert line + "\n" + "" == text;
      assert ([line] + FileLines(""))[0] == line;
    }
  }

  lemma PieceLeads(line: string)
    ensures var lines := FileLines(line + "\n"); lines != [] && lines[0] == FirstPiece(line)
  {
    hide LineEnd, Trimmed;
  }

  lemma TrimmedDropsNewline(line: string)
    ensures line != "" && line[|line| - 1] == '\n' ==> |Trimmed(line)| < |line|
  {
  }

  /** A text that ends its last line is read independently of what follows. */
  lemma {:induction false} FileLinesAppend(a: string, b: string)
    requires a == "" || a[|a| - 1] == '\n'
    ensures FileLines(a + b) == FileLines(a) + FileLines(b)
    decreases |a|
  {
    hide Trimmed, LineEnd;
    if a == "" {
      assert a + b == b;
    } else {
      var n := LineEnd(a);
      LineEndInside(a, b);
      assert (a + b)[..n] == a[..n] && (a + b)[n..] == a[n..] + b;
      FileLinesAppend(a[n..], b);
    }
  }

  lemma {:induction false} LineEndInside(a: string, b: string)
    requires a != "" && a[|a| - 1] == '\n'
    ensures LineEnd(a + b) == LineEnd(a)
  {
    if a[0] != '\n' {
      assert (a + b)[1..] == a[1..] + b;
      LineEndInside(a[1..], b);
    }
  }

  lemma {:induction false} WrittenSnoc(lines: seq<string>, line: string)
    ensures Written(lines + [line]) == Written(lines) + (line + "\n")
    ensures var w := Written(lines); w == "" || w[|w| - 1] == '\n'
  {
    if lines == [] {
      assert lines + [line] == [line] && Written([line][1..]) == "";
    } else {
      WrittenSnoc(lines[1..], line);
      assert (lines + [line])[1..] == lines[1..] + [line];
    }
  }

  /** One more line written: the file shows its first piece next, and nothing else if it is a file line. */
  lemma OneMoreLine(lines: seq<string>, line: string)
    ensures var (before, after) := (FileLines(Written(lines)), FileLines(Written(lines + [line])));
            && before + [FirstPiece(line)] <= after
            && (IsFileLine(line) ==> after == before + [line])
  {
    hide LineEnd, Trimmed, FileLines, FirstPiece, Written;
    WrittenSnoc(lines, line);
    FileLinesAppend(Written(lines), line + "\n");
    PieceLeads(line);
    if IsFileLine(line) {
      FirstWrittenLine(line, "");
      NoFileLines("", 0);
      assert line + "\n" + "" == line + "\n" && ""[0..] == "";
    }
  }

  lemma {:induction false} WrittenLinesRead(lines: seq<string>)
    requires AreFileLines(lines)
    ensures FileLines(Written(lines)) == lines
  {
    hide LineEnd, Trimmed, IsFileLine;
    if lines != [] {
      var line, rest := lines[0], lines[1..];
      WrittenLinesRead(rest);
      assert IsFileLine(line);
      FirstWrittenLine(line, Written(rest));
      assert lines == [line] + rest;
    }
  }

  lemma FirstWrittenLine(line: string, rest: string)
    requires IsFileLine(line)
    ensures FileLines(line + "\n" + rest) == [line] + FileLines(rest)
  {
    hide LineEnd;
    var text := line + "\n" + rest;
    WrittenLineEnd(line, rest);
    assert text[..|line| + 1] == line + "\n" && text[|line| + 1..] == rest;
    assert (line + "\n")[..|line|] == line;
    assert Trimmed(line) == line;
  }

  lemma {:induction false} WrittenLineEnd(line: string, rest: string)
    requires '\n' !in line
    ensures LineEnd(line + "\n" + rest) == |line| + 1
  {
    var text := line + "\n" + rest;
    if line != "" {
      WrittenLineEnd(line[1..], rest);
      assert text[1..] == line[1..] + "\n" + rest;
    }
  }

  lemma {:induction false} FileLinesAreTrimmed(text: string)
    ensures AreFileLines(FileLines(text))
  {
    if text != "" {
      var n := LineEnd(text);
      FileLinesAreTrimmed(text[n..]);
      TrimmedIsFileLine(text[..n]);
      var (first, rest) := ([Trimmed(text[..n])], FileLines(text[n..]));
      forall k | 0 <= k < |first + rest| ensures IsFileLine((first + rest)[k]) {
        assert k > 0 ==> (first + rest)[k] == rest[k - 1];
      }
    }
  }

  lemma {:induction false} TrimmedIsFileLine(line: string)
    requires '\n' !in line || (line[|line| - 1] == '\n' && '\n' !in line[..|line| - 1])
    ensures IsFileLine(Trimmed(line))
  {
    if line != "" && line[|line| - 1] in {'\n', '\r'} {
      TrimmedIsFileLine(line[..|line| - 1]);
    }
  }
}

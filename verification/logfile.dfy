/** The signer's log as a file: which logs survive being written and read back. */
module LogFiles {
  import opened Wrappers
  import opened Octets
  import opened Crypto
  import opened SdRecords
  import opened HashChains
  import opened StateFile
  import opened LogVerifier
  import opened Acceptance
  import opened Signer
  import opened Lifecycle
  import opened Carriage
  import opened Completeness

  /** The record and the certificate of the line that an event writes. */
  ghost predicate IsWritten(c: SignerConfig, s: System, ev: Event, cap: nat, r: Record, cert: Option<octets>) {
    && IsPrintable(r)
    && Next(c, s, ev, cap).1 == Some(RenderRecord(r) + CertText(cert) + PayloadOf(ev))
    && if Opens(c, s, ev, cap) then r == FirstRecord(c, PayloadOf(ev)) && cert == PrintedCert(c, cap)
       else
         && cert == None && InProgress(s.worker).Some? && InProgress(s.worker).value.from < TWO_64
         && Follows(c, InProgress(s.worker).value, r, PayloadOf(ev))
  }

  /** Every line the signer writes is a printed record, a certificate or none, and the payload. */
  lemma EventWrites(c: SignerConfig, s: System, h: History, ev: Event, cap: nat)
    returns (r: Record, cert: Option<octets>)
    requires ConfigOk(c) && c.keyOk && cap >= SD_MAX_LEN && EventOk(c, ev) && HistoryOk(c, s, h) && WithinRange(h)
    requires Next(c, s, ev, cap).1.Some?
    ensures IsWritten(c, s, ev, cap, r, cert)
  {
    hide SaveText, LoadText, SigningOk, InitHash, Fold, Link, RenderRecord, FormatRecord, SavedChain, IsPrintable,
      Follows, ProcessMsg, FirstRecord, PrintedCert;
    var w := s.worker;
    match ev
    case Message(payload, sign) =>
      if IsLive(w) {
        r := LiveWrites(c, w, payload, sign, cap);
        cert := None;
      } else {
        r, cert := StartWrites(c, s, h, payload, sign, cap);
      }
    case Close(sign) =>
      ClosingFollows(c, w.chain, w.sigFrom, "", sign, cap);
      var d := Extended(c.prims, w.chain, "").current;
      r, cert := ClosingRecord(c, w.chain, w.sigFrom, "", sign(d).value), None;
      assert RenderRecord(r) + CertText(None) + "" == RenderRecord(r);
    case Restart(_) =>
  }

  lemma LiveWrites(c: SignerConfig, w: WorkerState, payload: string, sign: SignCall, cap: nat) returns (r: Record)
    requires cap >= SD_MAX_LEN && Sound(c, sign) && IsLive(w) && WorkerOk(c, w) && w.chain.next < TWO_64
    requires ProcessMsg(c, w, payload, sign, cap).out.Some?
    ensures IsPrintable(r) && ProcessMsg(c, w, payload, sign, cap).out == Some(RenderRecord(r) + CertText(None))
    ensures Follows(c, Chain(w.chain.current, w.chain.next, w.sigFrom), r, payload)
    ensures w.sigFrom < TWO_64
  {
    hide Link, InitHash, RenderRecord, FormatRecord, FreshChain, IsPrintable, Follows;
    var d := Extended(c.prims, w.chain, payload).current;
    if w.chain.count + 1 < c.interval {
      r := MsgRecord(w.chain.next, d);
      MessageFollows(c, w.chain, w.sigFrom, payload, cap);
    } else {
      ClosingFollows(c, w.chain, w.sigFrom, payload, sign, cap);
      r := ClosingRecord(c, w.chain, w.sigFrom, payload, sign(d).value);
    }
    assert RenderRecord(r) + CertText(None) == RenderRecord(r);
  }

  lemma StartWrites(c: SignerConfig, s: System, h: History, payload: string, sign: SignCall, cap: nat)
    returns (r: Record, cert: Option<octets>)
    requires ConfigOk(c) && c.keyOk && cap >= SD_MAX_LEN && Sound(c, sign) && HistoryOk(c, s, h) && WithinRange(h)
    requires !IsLive(s.worker)
    ensures IsWritten(c, s, Message(payload, sign), cap, r, cert)
  {
    hide SaveText, LoadText, SigningOk, InitHash, Fold, Link, RenderRecord, FormatRecord, SavedChain, FirstRecord,
      PrintedCert, CertText, FreshChain, IsPrintable, Follows, Append;
    var w := s.worker;
    FirstEmits(c, if w.initialized then w else JustInitialized(c, w).(pending := None), payload, sign, cap);
    FirstPrintable(c, payload);
    r, cert := FirstRecord(c, payload), PrintedCert(c, cap);
    if !w.initialized && w.pending.Some? {
      PendingIsStored(c, s, h);
      var chain := SavedChain(w.pending.value);
      var d := Extended(c.prims, chain, payload).current;
      if sign(d).Some? {
        ClosingFollows(c, chain, w.pending.value.sigFrom, payload, sign, cap);
        r, cert := ClosingRecord(c, chain, w.pending.value.sigFrom, payload, sign(d).value), None;
        NoCertText(RenderRecord(r));
      }
    }
  }

  lemma NoCertText(sd: string)
    ensures sd + CertText(None) == sd
  {
  }

  /** Every payload that gets a line has no newline and does not end in a carriage return. */
  predicate AllFileLines(c: SignerConfig, events: seq<Event>, cap: nat) {
    |events| > 0 ==>
    var n := |events| - 1;
    && AllFileLines(c, events[..n], cap)
    && (Next(c, Run(c, events[..n], cap).0, events[n], cap).1.Some? ==> IsFileLine(PayloadOf(events[n])))
  }

  lemma FileLinesSnoc(lines: seq<string>, line: string)
    ensures AreFileLines([])
    ensures AreFileLines(lines + [line]) <==> AreFileLines(lines) && IsFileLine(line)
  {
    hide IsFileLine;
    assert forall k :: 0 <= k < |lines| ==> (lines + [line])[k] == lines[k];
    assert (lines + [line])[|lines|] == line;
  }

  lemma {:induction false} LinesFit(c: SignerConfig, events: seq<Event>, cap: nat)
    requires ConfigOk(c) && c.keyOk && cap >= SD_MAX_LEN && |events| < TWO_64 - 1
    requires forall k :: 0 <= k < |events| ==> EventOk(c, events[k])
    ensures var lines := Run(c, events, cap).1;
            AreFileLines(lines) <==> AllFileLines(c, events, cap)
  {
    hide Next, HistoryOk, EventOk, IsFileLine, AreFileLines, RenderRecord, IsPrintable, CertText;
    if |events| == 0 {
      FileLinesSnoc([], "");
    } else {
      var n := |events| - 1;
      var front := events[..n];
      var (s, lines) := Run(c, front, cap);
      LinesFit(c, front, cap);
      RunKeepsHistory(c, front, cap);
      var line := Next(c, s, events[n], cap).1;
      if line.Some? {
        var r, cert := EventWrites(c, s, HistoryOf(c, front, cap), events[n], cap);
        LineInFile(r, cert, PayloadOf(events[n]));
        FileLinesSnoc(lines, line.value);
      }
    }
  }

  /** Written to a file and read back, the log is what the signer wrote exactly for such payloads. */
  lemma LogSurvivesFile(c: SignerConfig, events: seq<Event>, cap: nat)
    requires ConfigOk(c) && c.keyOk && cap >= SD_MAX_LEN && |events| < TWO_64 - 1
    requires forall k :: 0 <= k < |events| ==> EventOk(c, events[k])
    ensures var lines := Run(c, events, cap).1;
            FileLines(Written(lines)) == lines <==> AllFileLines(c, events, cap)
  {
    hide Run, EventOk, AllFileLines, IsFileLine, FileLines, Written;
    LinesFit(c, events, cap);
    FileRoundTrip(Run(c, events, cap).1);
  }

  // ---------- What the verifier decides from the file ----------

  /** The event's payload is cut short by the file, and collides with what the verifier reads in its place. */
  predicate CutCollides(c: SignerConfig, s: System, ev: Event, cap: nat) {
    var line := Next(c, s, ev, cap).1;
    var o := Extends(c, s, ev, cap);
    line.Some? && !IsFileLine(PayloadOf(ev)) && LineCollides(c, o.head, o.next, PayloadOf(ev), FirstPiece(line.value))
  }

  ghost predicate FileCollides(c: SignerConfig, events: seq<Event>, cap: nat) {
    |events| > 0 &&
    var (n, s) := (|events| - 1, Run(c, events[..|events| - 1], cap).0);
    FileCollides(c, events[..n], cap) || EventCollides(c, s, events[n], cap) || CutCollides(c, s, events[n], cap)
  }

  /** A line whose payload the file cuts short is rejected. */
  lemma CutEvent(
    c: SignerConfig, v: VConfig, s: System, h: History, t: Track, vs: VState, ev: Event, cap: nat, n: nat)
    requires SetupOk(c, v, cap) && EventOk(c, ev) && HistoryOk(c, s, h) && WithinRange(h) && Sim(c, s.worker, t, vs)
    requires Next(c, s, ev, cap).1.Some? && !IsFileLine(PayloadOf(ev))
    ensures || Dead(ProcessLine(v, vs, FirstPiece(Next(c, s, ev, cap).1.value), n).0)
            || CutCollides(c, s, ev, cap)
  {
    hide Next, Opens, HistoryOk, RenderRecord, CertText, IsPrintable, ReadLine, ProcessLine, FirstRecord, Link,
      InitHash, FirstPiece, IsFileLine, EventOk, PrintedCert, Follows, Carried, InProgress;
    var r, cert := EventWrites(c, s, h, ev, cap);
    var (payload, line) := (PayloadOf(ev), Next(c, s, ev, cap).1.value);
    var (short, piece) := (FirstPiece(payload), FirstPiece(line));
    CutLine(r, cert, payload);
    if Opens(c, s, ev, cap) {
      OpenTaken(c, v, vs, payload, piece, n);
    } else {
      NextTaken(c, v, vs, t.gap, InProgress(s.worker).value, r, payload, piece, n);
    }
  }

  /** What is left of a cut line reads as the same record, and not as the payload. */
  lemma CutLine(r: Record, cert: Option<octets>, payload: string)
    requires IsPrintable(r) && !IsFileLine(payload)
    ensures var piece := FirstPiece(RenderRecord(r) + CertText(cert) + payload);
            Reads(piece, r) && ReadLine(piece) != Readable(Entry(r, payload), true)
  {
    hide RenderRecord, CertText, IsPrintable, ReadLine, FirstPiece, IsFileLine, Carried;
    var front := RenderRecord(r) + CertText(cert);
    FrontHasNoNewline(r, cert);
    PieceBehind(front, payload);
    PieceIsPart(payload);
    LineCarries(r, cert, FirstPiece(payload));
  }

  lemma {:induction false} FileSim(c: SignerConfig, v: VConfig, events: seq<Event>, cap: nat)
    requires SetupOk(c, v, cap) && |events| < TWO_64 - 1
    requires forall k :: 0 <= k < |events| ==> EventOk(c, events[k])
    ensures FileIsDecided(c, v, events, cap)
  {
    hide Next, HistoryOk, SetupOk, EventOk, ProcessLine, Dead, Flaw, EventCollides, CutCollides, IsFileLine, Sim,
      FileLines, Written, FirstPiece, TrackAfter;
    if |events| == 0 {
      NoLinesInFile();
    } else {
      var n := |events| - 1;
      var front := events[..n];
      var (s, lines) := Run(c, front, cap);
      FileSim(c, v, front, cap);
      var line := Next(c, s, events[n], cap).1;
      if line.Some? {
        FileStep(c, v, events, cap);
      } else {
        SilentIsNoFlaw(c, v, s, TrackOf(c, front, cap), events[n], cap);
      }
    }
  }

  ghost predicate FileIsDecided(c: SignerConfig, v: VConfig, events: seq<Event>, cap: nat) {
    var lines := Run(c, events, cap).1;
    if Flawed(c, v, events, cap) || !AllFileLines(c, events, cap) then
      Dead(RunAll(v, FileLines(Written(lines)))) || FileCollides(c, events, cap)
    else FileLines(Written(lines)) == lines
  }

  lemma FileStep(c: SignerConfig, v: VConfig, events: seq<Event>, cap: nat)
    requires SetupOk(c, v, cap) && 0 < |events| < TWO_64 - 1
    requires forall k :: 0 <= k < |events| ==> EventOk(c, events[k])
    requires FileIsDecided(c, v, events[..|events| - 1], cap)
    requires Next(c, Run(c, events[..|events| - 1], cap).0, events[|events| - 1], cap).1.Some?
    ensures FileIsDecided(c, v, events, cap)
  {
    hide Next, HistoryOk, SetupOk, EventOk, ProcessLine, Dead, Flaw, EventCollides, CutCollides, IsFileLine, Sim,
      FileLines, Written, FirstPiece, TrackAfter, RunAll, LifeCollides;
    var (n, front) := (|events| - 1, events[..|events| - 1]);
    var (s, lines) := Run(c, front, cap);
    var l := Next(c, s, events[n], cap).1.value;
    var (before, after) := (FileLines(Written(lines)), FileLines(Written(lines + [l])));
    OneMoreLine(lines, l);
    if Flawed(c, v, front, cap) || !AllFileLines(c, front, cap) {
      assert after[..|before|] == before;
      if Dead(RunAll(v, before)) {
        LogTheorems.DeadPrefix(v, after, |before|);
      }
    } else {
      NextInFile(c, v, events, cap);
    }
  }

  /** One more line behind lines that all reached the verifier unchanged and unflawed. */
  lemma NextInFile(c: SignerConfig, v: VConfig, events: seq<Event>, cap: nat)
    requires SetupOk(c, v, cap) && 0 < |events| < TWO_64 - 1
    requires forall k :: 0 <= k < |events| ==> EventOk(c, events[k])
    requires var front := events[..|events| - 1];
             var (s, lines) := Run(c, front, cap);
             && !Flawed(c, v, front, cap) && AllFileLines(c, front, cap) && FileLines(Written(lines)) == lines
             && Next(c, s, events[|events| - 1], cap).1.Some?
    ensures FileIsDecided(c, v, events, cap)
  {
    hide Next, HistoryOk, SetupOk, EventOk, ProcessLine, Dead, Flaw, EventCollides, CutCollides, IsFileLine, Sim,
      FileLines, Written, FirstPiece, TrackAfter, RunAll, LifeCollides;
    var (n, front) := (|events| - 1, events[..|events| - 1]);
    var (s, lines) := Run(c, front, cap);
    var (ev, t, h) := (events[n], TrackOf(c, front, cap), HistoryOf(c, front, cap));
    var l := Next(c, s, ev, cap).1.value;
    var after := FileLines(Written(lines + [l]));
    OneMoreLine(lines, l);
    RunSim(c, v, front, cap);
    assert ConfigOk(c) by { SetupHasConfig(c, v, cap); }
    RunKeepsHistory(c, front, cap);
    RunSnoc(v, lines, FirstPiece(l));
    if IsFileLine(PayloadOf(ev)) {
      WholeLine(c, v, s, h, ev, cap);
      EveryEventSim(c, v, s, h, t, RunAll(v, lines), ev, cap, |lines| + 1);
      if Flaw(c, v, s, t, ev, cap) {
        SimOrDead(c, v, s, t, RunAll(v, lines), ev, cap, |lines| + 1);
      }
    } else {
      CutEvent(c, v, s, h, t, RunAll(v, lines), ev, cap, |lines| + 1);
      assert after[..|lines| + 1] == lines + [FirstPiece(l)];
      if Dead(RunAll(v, lines + [FirstPiece(l)])) {
        LogTheorems.DeadPrefix(v, after, |lines| + 1);
      }
    }
  }

  lemma WholeLine(c: SignerConfig, v: VConfig, s: System, h: History, ev: Event, cap: nat)
    requires SetupOk(c, v, cap) && EventOk(c, ev) && HistoryOk(c, s, h) && WithinRange(h)
    requires Next(c, s, ev, cap).1.Some? && IsFileLine(PayloadOf(ev))
    ensures var l := Next(c, s, ev, cap).1.value; IsFileLine(l) && FirstPiece(l) == l
  {
    hide Next, HistoryOk, RenderRecord, CertText, IsPrintable, FirstRecord, FirstPiece, IsFileLine, EventOk,
      PrintedCert, Follows, InProgress;
    var r, cert := EventWrites(c, s, h, ev, cap);
    LineInFile(r, cert, PayloadOf(ev));
    PieceIsPart(Next(c, s, ev, cap).1.value);
  }

  lemma SimOrDead(c: SignerConfig, v: VConfig, s: System, t: Track, vs: VState, ev: Event, cap: nat, n: nat)
    requires EventSim(c, v, s, t, vs, ev, cap, n) && Next(c, s, ev, cap).1.Some? && Flaw(c, v, s, t, ev, cap)
    ensures Dead(ProcessLine(v, vs, Next(c, s, ev, cap).1.value, n).0) || EventCollides(c, s, ev, cap)
  {
    hide Next, Flaw, EventCollides, ProcessLine, Dead;
  }

  lemma NoLinesInFile()
    ensures FileLines(Written([])) == []
  {
  }

  lemma SilentIsNoFlaw(c: SignerConfig, v: VConfig, s: System, t: Track, ev: Event, cap: nat)
    requires Next(c, s, ev, cap).1.None?
    ensures !Flaw(c, v, s, t, ev, cap)
  {
  }

  /**
   * Completeness of the command line.  The log of a life, written to a file and read from it, is accepted
   * exactly when it has a line, none is flawed, the file cuts none short, and in strict mode the last is a
   * signature; or some payload and what is read in its place are a collision of the hash.
   */
  lemma HonestFilesAreAccepted(c: SignerConfig, v: VConfig, events: seq<Event>, cap: nat)
    requires SetupOk(c, v, cap) && |events| < TWO_64 - 1
    requires forall k :: 0 <= k < |events| ==> EventOk(c, events[k])
    ensures var lines := Run(c, events, cap).1;
            var passed := Accepts(v, FileLines(Written(lines)));
            var good := && lines != [] && !Flawed(c, v, events, cap) && AllFileLines(c, events, cap)
                        && (v.strict ==> !TrackOf(c, events, cap).tail);
            (good ==> passed) && (passed ==> good || FileCollides(c, events, cap))
  {
    hide Run, EventOk, SetupOk, Flawed, AllFileLines, TrackOf, FileLines, Written, RunAll, Accepts, FileCollides,
      LifeCollides;
    var lines := Run(c, events, cap).1;
    FileSim(c, v, events, cap);
    HonestLogsAreAccepted(c, v, events, cap);
    if Accepts(v, FileLines(Written(lines))) {
      AcceptedIsAlive(v, FileLines(Written(lines)));
    }
  }
}

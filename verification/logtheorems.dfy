/** Consequences of the verifier's steps and verdict for whole logs. */
module LogTheorems {
  import opened Octets
  import opened Crypto
  import opened SdRecords
  import opened LogVerifier
  import opened Acceptance

  // ---------- Arbitrary logs ----------

  lemma {:induction false} RunGrows(c: VConfig, lines: seq<string>, n: nat)
    requires n <= |lines|
    ensures RunAll(c, lines[..n]).errors <= RunAll(c, lines).errors
    decreases |lines| - n
  {
    hide ProcessLine;
    if n == |lines| {
      assert lines[..n] == lines;
    } else {
      RunGrows(c, lines, n + 1);
      assert lines[..n] + [lines[n]] == lines[..n + 1];
      RunSnoc(c, lines[..n], lines[n]);
      ErrorsGrow(c, RunAll(c, lines[..n]), lines[n], n + 1);
    }
  }

  lemma CheckHashBound(c: VConfig, s: VState, e: Entry, line: nat)
    requires |s.errors| <= MAX_ERRORS
    ensures |CheckHash(c, s, e, line).0.errors| <= MAX_ERRORS
  {
    hide Link;
  }

  lemma EntryBound(c: VConfig, s: VState, e: Entry, line: nat)
    requires |s.errors| <= MAX_ERRORS
    ensures |ProcessEntry(c, s, e, line).0.errors| <= MAX_ERRORS
  {
    hide CheckHash, InitHash;
    CheckHashBound(c, s, e, line);
    CheckHashBound(c, s.(segments := s.segments + 1), e, line);
    CheckHashBound(c, OpenSegment(c, CloseSegment(c, s, line), OrSha256(e)), e, line);
  }

  lemma {:induction false} ErrorBound(c: VConfig, lines: seq<string>)
    ensures |RunAll(c, lines).errors| <= MAX_ERRORS
  {
    hide ReadLine, ProcessEntry;
    if lines != [] {
      var n := |lines|;
      var s := RunAll(c, lines[..n - 1]);
      ErrorBound(c, lines[..n - 1]);
      match ReadLine(lines[n - 1])
      case Unreadable =>
      case Overrun =>
      case Readable(e, certOk) => EntryBound(c, Check(s, certOk, n, CertMalformed), e, n);
    }
  }

  /**
   * Over every log, hostile ones included: at most 64 errors are kept, those recorded after any
   * prefix are still there at the end, and as long as there is none the signed numbers stay below
   * the next one, so the subtraction that finds an unsigned tail cannot wrap.
   */
  lemma VerifierInvariant(c: VConfig, lines: seq<string>, n: nat)
    requires n <= |lines|
    ensures var (early, s) := (RunAll(c, lines[..n]), RunAll(c, lines));
            && |s.errors| <= 64
            && early.errors <= s.errors <= Finalize(c, s).errors
            && (s.errors == [] ==> s.next > 0 && s.lastSigned <= s.next - 1)
            && (s.errors == [] ==> Sub64(Pred64(s.next), s.lastSigned) == s.next - 1 - s.lastSigned)
  {
    hide RunAll, Fold, SegPayloads, Signatures, Segments, PrefixOk, AllReadable, Entries;
    ErrorBound(c, lines);
    RunGrows(c, lines, n);
    TailBound(c, lines);
    FinalizeGrows(c, RunAll(c, lines));
  }

  lemma {:induction false} TailBound(c: VConfig, lines: seq<string>)
    ensures var s := RunAll(c, lines); s.errors == [] ==> s.next > 0 && s.lastSigned <= s.next - 1
  {
    hide ReadLine, ProcessEntry, PrefixOk, CleanState, LogAlg, Entries, AllReadable;
    RunExact(c, lines);
    if lines != [] && RunAll(c, lines).phase == Lost {
      var n := |lines|;
      var s := RunAll(c, lines[..n - 1]);
      TailBound(c, lines[..n - 1]);
      ErrorsGrow(c, s, lines[n - 1], n);
      LostOnlyByOverrun(c, s, lines[n - 1], n);
    } else if !Dead(RunAll(c, lines)) {
      CleanTail(c, LogAlg(Entries(lines)), Entries(lines));
    }
  }

  lemma CleanTail(c: VConfig, alg: HashAlg, es: seq<Entry>)
    ensures var s := CleanState(c, alg, es); s.next > 0 && s.lastSigned <= s.next - 1
  {
    hide Fold, SegPayloads, Signatures, Segments;
  }

  lemma LostOnlyByOverrun(c: VConfig, s: VState, text: string, line: nat)
    ensures var s' := ProcessLine(c, s, text, line).0; s'.phase == Lost ==> s' == s.(phase := Lost)
  {
    hide ReadLine, ProcessEntry;
    var reading := ReadLine(text);
    if !Stopped(s) && reading.Readable? {
      EntryKeepsTrack(c, Check(s, reading.certOk, line, CertMalformed), reading.entry, line);
    }
  }

  lemma CheckHashKeepsTrack(c: VConfig, s: VState, e: Entry, line: nat)
    ensures CheckHash(c, s, e, line).0.phase in {s.phase, Broken}
  {
    hide Link;
  }

  lemma EntryKeepsTrack(c: VConfig, s: VState, e: Entry, line: nat)
    requires s.phase != Lost
    ensures ProcessEntry(c, s, e, line).0.phase != Lost
  {
    hide CheckHash, InitHash;
    CheckHashKeepsTrack(c, s, e, line);
    CheckHashKeepsTrack(c, s.(segments := s.segments + 1), e, line);
    CheckHashKeepsTrack(c, OpenSegment(c, CloseSegment(c, s, line), OrSha256(e)), e, line);
  }

  // ---------- Concatenation of segments ----------

  lemma {:induction false} ShiftAgrees(a: seq<Entry>, b: seq<Entry>, i: nat)
    requires i < |b| && IsInit(b[0])
    ensures SegStart(a + b, |a| + i) == |a| + SegStart(b, i)
    ensures SignedBefore(a + b, |a| + i) == SignedBefore(b, i)
    ensures SegPayloads(a + b, |a| + i) == SegPayloads(b, i)
  {
    hide Payloads, IsInit, IsSig;
    assert (a + b)[|a| + i] == b[i];
    if i > 0 {
      ShiftAgrees(a, b, i - 1);
      assert (a + b)[|a| + i - 1] == b[i - 1];
    }
    var j := SegStart(b, i);
    assert (a + b)[|a| + j..|a| + i + 1] == b[j..i + 1];
  }

  lemma ShiftLine(c: VConfig, alg: HashAlg, a: seq<Entry>, b: seq<Entry>, i: nat)
    requires i < |b| && IsInit(b[0])
    ensures LineOk(c, alg, a + b, |a| + i) == LineOk(c, alg, b, i)
  {
    hide KindOk, Fold, SegPayloads, SignedBefore;
    ShiftAgrees(a, b, i);
  }

  lemma JoinedPrefix(c: VConfig, alg: HashAlg, a: seq<Entry>, b: seq<Entry>)
    requires a != [] && b != [] && IsInit(b[0])
    ensures PrefixOk(c, alg, a + b) <==>
              && PrefixOk(c, alg, a) && PrefixOk(c, alg, b) && (c.strict ==> IsSig(a[|a| - 1]))
  {
    hide LineOk, IsInit, IsSig;
    var es := a + b;
    forall i | 0 <= i < |a| ensures LineOk(c, alg, es, i) == LineOk(c, alg, a, i) {
      LineAgrees(c, alg, a, b, i);
    }
    forall i | 0 <= i < |b| ensures LineOk(c, alg, es, |a| + i) == LineOk(c, alg, b, i) {
      ShiftLine(c, alg, a, b, i);
    }
    LinesJoined(c, alg, a, b);
    EndsJoined(c, a, b);
    assert es[0] == a[0];
  }

  ghost predicate LinesOk(c: VConfig, alg: HashAlg, es: seq<Entry>) {
    forall i :: 0 <= i < |es| ==> LineOk(c, alg, es, i)
  }

  lemma LinesJoined(c: VConfig, alg: HashAlg, a: seq<Entry>, b: seq<Entry>)
    requires forall i :: 0 <= i < |a| ==> LineOk(c, alg, a + b, i) == LineOk(c, alg, a, i)
    requires forall i :: 0 <= i < |b| ==> LineOk(c, alg, a + b, |a| + i) == LineOk(c, alg, b, i)
    ensures LinesOk(c, alg, a + b) <==> LinesOk(c, alg, a) && LinesOk(c, alg, b)
  {
    hide LineOk;
    var es := a + b;
    if LinesOk(c, alg, a) && LinesOk(c, alg, b) {
      forall i | 0 <= i < |es| ensures LineOk(c, alg, es, i) {
        if i >= |a| {
          assert LineOk(c, alg, es, |a| + (i - |a|)) == LineOk(c, alg, b, i - |a|);
        }
      }
    }
    if LinesOk(c, alg, es) {
      forall i | 0 <= i < |b| ensures LineOk(c, alg, b, i) {
        assert LineOk(c, alg, es, |a| + i);
      }
    }
  }

  lemma EndsJoined(c: VConfig, a: seq<Entry>, b: seq<Entry>)
    requires a != [] && b != [] && IsInit(b[0])
    ensures EndsOk(c, a + b) <==> EndsOk(c, a) && EndsOk(c, b) && (c.strict ==> IsSig(a[|a| - 1]))
  {
    hide IsInit, IsSig;
    var es := a + b;
    assert forall i :: 0 <= i < |a| ==> es[i] == a[i];
    assert forall i :: |a| <= i < |es| ==> es[i] == b[i - |a|];
    if EndsOk(c, es) && c.strict {
      assert IsInit(es[|a|]);
      forall i | 0 < i < |b| && IsInit(b[i]) ensures IsSig(b[i - 1]) {
        assert es[|a| + i] == b[i] && es[|a| + i - 1] == b[i - 1];
      }
    }
  }

  lemma FirstAlg(c: VConfig, alg: HashAlg, es: seq<Entry>)
    requires es != [] && LineOk(c, alg, es, 0)
    ensures LogAlg(es) == alg
  {
    hide KindOk, Fold;
    AlgRoundTrip(alg);
  }

  /** Good logs concatenate, and split, at an INIT line. */
  lemma JoinedLogs(c: VConfig, a: seq<Entry>, b: seq<Entry>)
    requires a != [] && b != [] && IsInit(b[0])
    ensures LogOk(c, a + b) <==> LogOk(c, a) && LogOk(c, b) && LogAlg(a) == LogAlg(b)
    ensures Signatures(a + b) == Signatures(a) + Signatures(b) && Segments(a + b) == Segments(a) + Segments(b)
  {
    hide LineOk, IsInit, IsSig, EndsOk, LogAlg;
    var alg := LogAlg(a);
    assert LogAlg(a + b) == alg by { LogAlgOfFirst(a, b); }
    JoinedPrefix(c, alg, a, b);
    CountsJoined(a, b);
    assert (a + b)[|a + b| - 1] == b[|b| - 1];
    if PrefixOk(c, alg, b) {
      FirstAlg(c, alg, b);
    }
  }

  lemma LogAlgOfFirst(a: seq<Entry>, b: seq<Entry>)
    requires a != []
    ensures LogAlg(a + b) == LogAlg(a)
  {
  }

  lemma {:induction false} CountsJoined(a: seq<Entry>, b: seq<Entry>)
    ensures Signatures(a + b) == Signatures(a) + Signatures(b)
    ensures Segments(a + b) == Segments(a) + Segments(b)
  {
    if b == [] {
      assert a + b == a;
    } else {
      var front, e := b[..|b| - 1], b[|b| - 1];
      CountsJoined(a, front);
      CountsStep(a + front, e);
      assert a + b == (a + front) + [e];
    }
  }

  /**
   * Segments compose: a file followed by one that opens with INIT is accepted exactly when each is
   * accepted on its own and both use one algorithm; the counters then add up.
   */
  lemma SegmentsCompose(c: VConfig, a: seq<string>, b: seq<string>)
    requires a != [] && b != [] && IsReadable(b[0]) && IsInit(ReadLine(b[0]).entry)
    ensures Accepts(c, a + b) <==>
              && Accepts(c, a) && Accepts(c, b) && AllReadable(a) && AllReadable(b)
              && LogAlg(Entries(a)) == LogAlg(Entries(b))
    ensures Accepts(c, a + b) ==>
              var (s, t, u) := (Finalize(c, RunAll(c, a)), Finalize(c, RunAll(c, b)), Finalize(c, RunAll(c, a + b)));
              && u.messages == s.messages + t.messages
              && u.signatures == s.signatures + t.signatures
              && u.segments == s.segments + t.segments
  {
    hide LogOk, LogAlg, Signatures, Segments, IsReadable, ReadLine, Accepts, Finalize, RunAll;
    AcceptanceIsLogOk(c, a);
    AcceptanceIsLogOk(c, b);
    AcceptanceIsLogOk(c, a + b);
    JoinedReadable(a, b);
    if AllReadable(a) && AllReadable(b) {
      JoinedLogs(c, Entries(a), Entries(b));
    }
    if Accepts(c, a + b) {
      AcceptedCounters(c, a);
      AcceptedCounters(c, b);
      AcceptedCounters(c, a + b);
    }
  }

  lemma JoinedReadable(a: seq<string>, b: seq<string>)
    ensures AllReadable(a + b) <==> AllReadable(a) && AllReadable(b)
    ensures AllReadable(a + b) ==> Entries(a + b) == Entries(a) + Entries(b)
  {
    hide IsReadable, ReadLine;
    var lines := a + b;
    assert forall i :: 0 <= i < |a| ==> lines[i] == a[i];
    assert forall i :: 0 <= i < |b| ==> lines[|a| + i] == b[i];
    if AllReadable(a) && AllReadable(b) {
      forall i | 0 <= i < |lines| ensures IsReadable(lines[i]) {
        assert i >= |a| ==> lines[i] == b[i - |a|];
      }
    }
    if AllReadable(lines) {
      forall i | 0 <= i < |b| ensures IsReadable(b[i]) {
        assert IsReadable(lines[|a| + i]);
      }
      assert Entries(lines) == Entries(a) + Entries(b);
    }
  }

  // ---------- Signed ranges ----------

  /** The highest number signed up to and including line `i` of its segment. */
  function SignedThrough(es: seq<Entry>, i: nat): nat
    requires i < |es|
  {
    if IsSig(es[i]) then NumberAt(es, i) else SignedBefore(es, i)
  }

  /** Line `k` is a SIG of the segment of line `i`, not after it, whose range contains `m`. */
  predicate Covers(es: seq<Entry>, i: nat, k: nat, m: nat)
    requires i < |es|
  {
    SegStart(es, i) <= k <= i && IsSig(es[k]) && es[k].record.sigFrom <= m <= es[k].record.sigTo
  }

  /** In a good log the range of a SIG line runs from just after the previous one to its own number. */
  lemma SigRange(c: VConfig, alg: HashAlg, es: seq<Entry>, k: nat)
    requires k < |es| < TWO_64 && LineOk(c, alg, es, k) && IsSig(es[k])
    ensures es[k].record.sigFrom == SignedBefore(es, k) + 1 && es[k].record.sigTo == NumberAt(es, k)
  {
    hide Fold, SegPayloads;
  }

  lemma SameSegment(es: seq<Entry>, i: nat)
    requires 0 < i < |es| && SegStart(es, i) < i
    ensures SegStart(es, i - 1) == SegStart(es, i)
  {
  }

  lemma {:induction false} FindCovering(c: VConfig, alg: HashAlg, es: seq<Entry>, i: nat, m: nat) returns (k: nat)
    requires i < |es| < TWO_64 && LinesOk(c, alg, es) && 0 < m <= SignedThrough(es, i)
    ensures Covers(es, i, k, m)
  {
    hide LineOk;
    if IsSig(es[i]) && m > SignedBefore(es, i) {
      SigRange(c, alg, es, i);
      k := i;
    } else {
      SameSegment(es, i);
      k := FindCovering(c, alg, es, i - 1, m);
    }
  }

  lemma {:induction false} LaterRanges(es: seq<Entry>, k: nat, i: nat)
    requires k < i < |es| && SegStart(es, i) <= k && IsSig(es[k])
    ensures NumberAt(es, k) <= SignedBefore(es, i)
    decreases i - k
  {
    SameSegment(es, i);
    if k < i - 1 {
      LaterRanges(es, k, i - 1);
    }
  }

  lemma {:induction false} SegStartInside(es: seq<Entry>, i: nat, k: nat)
    requires i < |es| && SegStart(es, i) <= k <= i
    ensures SegStart(es, k) == SegStart(es, i)
    decreases i - k
  {
    if k < i {
      SameSegment(es, i);
      SegStartInside(es, i - 1, k);
    }
  }

  lemma CoversOnce(c: VConfig, alg: HashAlg, es: seq<Entry>, i: nat, k: nat, k': nat, m: nat)
    requires i < |es| < TWO_64 && LinesOk(c, alg, es) && Covers(es, i, k, m) && Covers(es, i, k', m)
    ensures k == k'
  {
    hide LineOk, NumberAt, SignedBefore;
    SegStartInside(es, i, k);
    SegStartInside(es, i, k');
    SigRange(c, alg, es, k);
    SigRange(c, alg, es, k');
    if k < k' {
      LaterRanges(es, k, k');
    } else if k' < k {
      LaterRanges(es, k', k);
    }
  }

  /**
   * In a good log the signed ranges of each segment tile it: every number up to the last signed one
   * lies in the range of exactly one SIG line.
   */
  lemma RangesTile(c: VConfig, es: seq<Entry>, i: nat, m: nat)
    requires LogOk(c, es) && i < |es| < TWO_64 && 0 < m <= SignedThrough(es, i)
    ensures exists k: nat :: Covers(es, i, k, m) && forall k': nat :: Covers(es, i, k', m) ==> k' == k
  {
    hide LineOk, Covers, LogAlg, EndsOk;
    var k := FindCovering(c, LogAlg(es), es, i, m);
    forall k': nat | Covers(es, i, k', m) ensures k' == k {
      CoversOnce(c, LogAlg(es), es, i, k, k', m);
    }
  }

  // ---------- Where a change is reported ----------

  /** The algorithm, previous head and number with which a line's payload is hashed. */
  function HashPoint(c: VConfig, s: VState, e: Entry): (HashAlg, octets, nat) {
    if IsInit(e) then (OrSha256(e), InitHash(c.prims, OrSha256(e)), 1) else (s.alg, s.head, s.next)
  }

  /** The two digest inputs that differ only in the payload, when they have one digest. */
  predicate SwapCollides(c: VConfig, s: VState, e: Entry, x: string) {
    var (alg, head, n) := HashPoint(c, s, e);
    IsCollision(c.prims, alg, Collision(ChainInput(head, n, e.payload), ChainInput(head, n, x)))
  }

  /** In a state without errors, a payload other than the one the line's hash was made for is a hash mismatch. */
  lemma PayloadMatters(c: VConfig, s: VState, e: Entry, x: string, line: nat)
    requires s.errors == [] && ProcessEntry(c, s, e, line).0.errors == [] && x != e.payload
    ensures || SwapCollides(c, s, e, x)
            || (var s' := ProcessEntry(c, s, e.(payload := x), line).0;
                s'.errors != [] && s'.errors[0] == VError(line, HashMismatch))
  {
    hide CheckHash, InitHash, Link;
    var e' := e.(payload := x);
    match e.record.kind {
      case InitType =>
        var alg := OrSha256(e);
        var s1 := CloseSegment(c, s, line);
        CheckHashGrows(c, OpenSegment(c, s1, alg), e, line);
        CloseGrows(c, s, line);
        HashMatters(c, OpenSegment(c, s1, alg), e, x, line);
      case ContinueType => HashMatters(c, s.(segments := s.segments + 1), e, x, line);
      case MsgType => HashMatters(c, s, e, x, line);
      case SigType => SigMatters(c, s, e, x, line);
      case OtherType(_) =>
    }
  }

  lemma HashMatters(c: VConfig, s: VState, e: Entry, x: string, line: nat)
    requires s.errors == [] && CheckHash(c, s, e, line).0.errors == [] && x != e.payload
    ensures || (var (a, b) := (ChainInput(s.head, s.next, e.payload), ChainInput(s.head, s.next, x));
                IsCollision(c.prims, s.alg, Collision(a, b)))
            || (var (s', ok) := CheckHash(c, s, e.(payload := x), line);
                ok && s'.errors == [VError(line, HashMismatch)])
  {
    hide ChainInput, Digest;
    var h := Link(c.prims, s.alg, s.head, s.next, e.payload);
    var h' := Link(c.prims, s.alg, s.head, s.next, x);
    if h == h' {
      var col := Collision(ChainInput(s.head, s.next, e.payload), ChainInput(s.head, s.next, x));
      if col.x == col.y {
        ChainInputParts(s.head, s.next, e.payload, s.head, s.next, x);
      }
      assert IsCollision(c.prims, s.alg, col);
    }
  }

  lemma SigMatters(c: VConfig, s: VState, e: Entry, x: string, line: nat)
    requires e.record.kind == SigType && x != e.payload
    requires s.errors == [] && ProcessEntry(c, s, e, line).0.errors == []
    ensures || SwapCollides(c, s, e, x)
            || (var s' := ProcessEntry(c, s, e.(payload := x), line).0;
                s'.errors != [] && s'.errors[0] == VError(line, HashMismatch))
  {
    hide CheckHash;
    SigContainsHash(c, s, e, line);
    HashMatters(c, s, e, x, line);
    SigContainsHash(c, s, e.(payload := x), line);
  }

  lemma SigContainsHash(c: VConfig, s: VState, e: Entry, line: nat)
    requires s.phase == Processing
    ensures CheckHash(c, s, e, line).0.errors <= HandleSig(c, s, e, line).0.errors
  {
    hide CheckHash;
  }

  lemma {:induction false} DeadPrefix(c: VConfig, lines: seq<string>, n: nat)
    requires n <= |lines| && Dead(RunAll(c, lines[..n]))
    ensures Dead(RunAll(c, lines))
    decreases |lines| - n
  {
    hide ProcessLine, Dead;
    if n == |lines| {
      assert lines[..n] == lines;
    } else {
      assert lines[..n] + [lines[n]] == lines[..n + 1];
      RunSnoc(c, lines[..n], lines[n]);
      DeadStays(c, RunAll(c, lines[..n]), lines[n], n + 1);
      DeadPrefix(c, lines, n + 1);
    }
  }

  /** The prefix of an accepted log leaves no error, and its next line adds none. */
  lemma AcceptedPrefix(c: VConfig, lines: seq<string>, i: nat)
    requires Accepts(c, lines) && i < |lines|
    ensures var s := RunAll(c, lines[..i]);
            && s.errors == [] && s.phase in {ExpectInit, Processing} && IsReadable(lines[i])
            && RunAll(c, lines[..i + 1]) == ProcessEntry(c, s, ReadLine(lines[i]).entry, i + 1).0
            && RunAll(c, lines[..i + 1]).errors == []
  {
    hide ReadLine, ProcessLine, ProcessEntry, PrefixOk, LogAlg, CleanState, LogOk;
    AcceptanceIsLogOk(c, lines);
    FinalizeDead(c, RunAll(c, lines));
    if Dead(RunAll(c, lines[..i])) {
      DeadPrefix(c, lines, i);
    }
    if Dead(RunAll(c, lines[..i + 1])) {
      DeadPrefix(c, lines, i + 1);
    }
    RunExact(c, lines[..i]);
    CleanPhase(c, LogAlg(Entries(lines[..i])), Entries(lines[..i]));
    RunSnoc(c, lines[..i], lines[i]);
    assert lines[..i] + [lines[i]] == lines[..i + 1];
    ReadableStep(c, RunAll(c, lines[..i]), lines[i], i + 1);
  }

  /** The first error of a log whose line `i` is reported is reported there. */
  lemma FirstError(c: VConfig, lines: seq<string>, i: nat, e: VError)
    requires i < |lines|
    requires var s := RunAll(c, lines[..i + 1]); s.errors != [] && s.errors[0] == e
    ensures var s := Finalize(c, RunAll(c, lines)); s.errors != [] && s.errors[0] == e
  {
    hide RunAll, Finalize;
    RunGrows(c, lines, i + 1);
    FinalizeGrows(c, RunAll(c, lines));
  }

  /**
   * Localisation of a changed payload: in a log that was accepted, replacing the stripped payload
   * of one line makes that line the first one reported, as a hash mismatch, or exhibits a collision.
   */
  lemma ChangedPayloadIsLocated(c: VConfig, lines: seq<string>, i: nat, text: string, x: string)
    requires Accepts(c, lines) && i < |lines| && IsReadable(lines[i])
    requires ReadLine(text) == Readable(ReadLine(lines[i]).entry.(payload := x), true)
    requires x != ReadLine(lines[i]).entry.payload
    ensures || SwapCollides(c, RunAll(c, lines[..i]), ReadLine(lines[i]).entry, x)
            || (var s := Finalize(c, RunAll(c, lines[i := text]));
                s.errors != [] && s.errors[0] == VError(i + 1, HashMismatch))
  {
    hide ReadLine, ProcessLine, ProcessEntry, RunAll, Finalize, Accepts;
    var changed := lines[i := text];
    var s, e := RunAll(c, lines[..i]), ReadLine(lines[i]).entry;
    AcceptedPrefix(c, lines, i);
    PayloadMatters(c, s, e, x, i + 1);
    assert changed[..i] == lines[..i] && changed[..i + 1] == lines[..i] + [text];
    RunSnoc(c, lines[..i], text);
    ReadableStep(c, s, text, i + 1);
    var s' := RunAll(c, changed[..i + 1]);
    if s'.errors != [] && s'.errors[0] == VError(i + 1, HashMismatch) {
      FirstError(c, changed, i, VError(i + 1, HashMismatch));
    }
  }

  lemma SkippedNumber(c: VConfig, s: VState, e: Entry, next: Entry, line: nat)
    requires s.errors == [] && !IsInit(e) && !IsInit(next)
    requires var s1 := ProcessEntry(c, s, e, line).0;
             s1.errors == [] && ProcessEntry(c, s1, next, line + 1).0.errors == []
    ensures var s' := ProcessEntry(c, s, next, line).0;
            s'.errors != [] && s'.errors[0] == VError(line, NumberMismatch)
  {
    hide CheckHash;
    var s1 := ProcessEntry(c, s, e, line).0;
    CleanNumber(c, s, e, line);
    CleanNumber(c, s1, next, line + 1);
    NumberFirst(c, s, next, line);
    NumberFirst(c, s.(segments := s.segments + 1), next, line);
    if next.record.kind == SigType {
      SigContainsHash(c, s, next, line);
    }
  }

  lemma NumberFirst(c: VConfig, s: VState, e: Entry, line: nat)
    requires s.errors == [] && e.record.number != s.next
    ensures var s' := CheckHash(c, s, e, line).0; s'.errors != [] && s'.errors[0] == VError(line, NumberMismatch)
  {
    hide Link;
  }

  lemma CleanNumber(c: VConfig, s: VState, e: Entry, line: nat)
    requires s.errors == [] && !IsInit(e) && ProcessEntry(c, s, e, line).0.errors == []
    ensures s.phase == Processing && e.record.number == s.next
    ensures e.record.kind == ContinueType && e.record.fp.Some? ==> e.record.fp.value == c.fp
    ensures e.record.kind in {MsgType, SigType, ContinueType}
    ensures var s' := ProcessEntry(c, s, e, line).0; s'.phase == Processing && s'.next == s.next + 1
  {
    hide CheckHash, Link;
    CheckHashClean(c, s, e, line);
    CheckHashClean(c, s.(segments := s.segments + 1), e, line);
    CheckHashGrows(c, s, e, line);
  }

  /**
   * Localisation of a deletion: removing a line that is neither an INIT nor the last of its segment
   * is reported at the line that follows it, by its number alone.
   */
  lemma DeletedLineIsLocated(c: VConfig, lines: seq<string>, i: nat)
    requires Accepts(c, lines) && i + 1 < |lines| && IsReadable(lines[i]) && IsReadable(lines[i + 1])
    requires !IsInit(ReadLine(lines[i]).entry) && !IsInit(ReadLine(lines[i + 1]).entry)
    ensures var s := Finalize(c, RunAll(c, lines[..i] + lines[i + 1..]));
            s.errors != [] && s.errors[0] == VError(i + 1, NumberMismatch)
  {
    hide ReadLine, ProcessLine, ProcessEntry, RunAll, Finalize, Accepts, IsInit;
    var short := lines[..i] + lines[i + 1..];
    var s, e, next := RunAll(c, lines[..i]), ReadLine(lines[i]).entry, ReadLine(lines[i + 1]).entry;
    AcceptedPrefix(c, lines, i);
    AcceptedPrefix(c, lines, i + 1);
    SkippedNumber(c, s, e, next, i + 1);
    assert short[..i + 1] == lines[..i] + [lines[i + 1]];
    RunSnoc(c, lines[..i], lines[i + 1]);
    ReadableStep(c, s, lines[i + 1], i + 1);
    FirstError(c, short, i, VError(i + 1, NumberMismatch));
  }
}

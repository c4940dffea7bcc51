/** Lives of the signer without failures: their logs are accepted. */
module SteadyLives {
  import opened Wrappers
  import opened Octets
  import opened Crypto
  import opened SdRecords
  import opened HashChains
  import opened StateFile
  import opened LogVerifier
  import opened Signer
  import opened Lifecycle
  import opened Completeness

  ghost predicate Succeeds(sign: SignCall) {
    forall d :: sign(d).Some?
  }

  /** Signatures succeed; towards a strict verifier every restart is graceful and finds its state. */
  ghost predicate IsSteady(c: SignerConfig, v: VConfig, ev: Event) {
    match ev
    case Message(_, sign) => Succeeds(sign)
    case Close(sign) => Succeeds(sign)
    case Restart(graceful) => v.strict ==> graceful && c.stateDir
  }

  /** No link is missing, and outside a chain nothing is unsigned that a strict verifier would miss. */
  predicate IsTidy(v: VConfig, w: WorkerState, t: Track) {
    !t.gap && (v.strict && InProgress(w).None? ==> !t.tail)
  }

  lemma SteadyEvent(
    c: SignerConfig, v: VConfig, s: System, h: History, t: Track, vs: VState, ev: Event, cap: nat)
    requires SetupOk(c, v, cap) && EventOk(c, ev) && IsSteady(c, v, ev) && IsTidy(v, s.worker, t)
    requires HistoryOk(c, s, h) && WithinRange(h) && Sim(c, s.worker, t, vs)
    ensures IsTidy(v, Next(c, s, ev, cap).0.worker, TrackAfter(c, s, t, ev, cap))
    ensures !Misplaced(c, v, s, t, ev, cap)
  {
    hide SaveText, LoadText, SigningOk, InitHash, Fold, Link, RenderRecord, FormatRecord, SavedChain, IsPrintable,
      Follows, Sound, Agrees;
    match ev
    case Message(payload, sign) => SteadyMessage(c, v, s, h, t, payload, sign, cap);
    case Close(sign) =>
      GapsExactly(c, s, h, t, ev, cap);
    case Restart(graceful) =>
      SteadyRestart(c, v, s, h, t, vs, graceful, cap);
  }

  lemma SteadyMessage(
    c: SignerConfig, v: VConfig, s: System, h: History, t: Track, payload: string, sign: SignCall, cap: nat)
    requires SetupOk(c, v, cap) && Sound(c, sign) && Succeeds(sign) && IsTidy(v, s.worker, t)
    requires HistoryOk(c, s, h) && WithinRange(h)
    ensures var ev := Message(payload, sign);
            && IsTidy(v, Next(c, s, ev, cap).0.worker, TrackAfter(c, s, t, ev, cap))
            && !Misplaced(c, v, s, t, ev, cap)
  {
    hide SaveText, LoadText, SigningOk, InitHash, Fold, Link, RenderRecord, FormatRecord, SavedChain, IsPrintable,
      Follows, Sound, FreshChain, Append;
    var w := s.worker;
    SilentMessage(c, s, h, payload, sign, cap);
    AppendChain(c, if w.initialized then w else JustInitialized(c, w).(pending := None), payload, sign, cap);
    if !w.initialized && w.pending.Some? {
      PendingIsStored(c, s, h);
      ClosingFollows(c, SavedChain(w.pending.value), w.pending.value.sigFrom, payload, sign, cap);
    }
  }

  lemma SteadyRestart(
    c: SignerConfig, v: VConfig, s: System, h: History, t: Track, vs: VState, graceful: bool, cap: nat)
    requires ConfigOk(c) && IsTidy(v, s.worker, t) && (v.strict ==> graceful && c.stateDir)
    requires HistoryOk(c, s, h) && WithinRange(h) && Sim(c, s.worker, t, vs)
    ensures var ev := Restart(graceful);
            && IsTidy(v, Next(c, s, ev, cap).0.worker, TrackAfter(c, s, t, ev, cap))
            && !Misplaced(c, v, s, t, ev, cap)
  {
    hide SaveText, LoadText, SigningOk, InitHash, Fold, SavedChain, AsSaved;
    var w := s.worker;
    if w.initialized {
      if w.chain.count > 0 {
        SnapshotOk(c, w);
      }
    } else if w.pending.None? {
      NoDisk(c, s, h);
    }
  }

  /** A life without failures has no misplaced line. */
  lemma {:induction false} SteadyRun(c: SignerConfig, v: VConfig, events: seq<Event>, cap: nat)
    requires SetupOk(c, v, cap) && |events| < TWO_64 - 1 && AllCarried(c, events, cap)
    requires forall k :: 0 <= k < |events| ==> EventOk(c, events[k]) && IsSteady(c, v, events[k])
    ensures !Flawed(c, v, events, cap) && IsTidy(v, Run(c, events, cap).0.worker, TrackOf(c, events, cap))
  {
    hide Next, HistoryOk, SetupOk, EventOk, IsSteady, Misplaced, Miscarried, TrackAfter, Sim;
    if |events| > 0 {
      hide IsTidy;
      var n := |events| - 1;
      var front := events[..n];
      var (s, lines) := Run(c, front, cap);
      SteadyRun(c, v, front, cap);
      RunSim(c, v, front, cap);
      assert ConfigOk(c) by { SetupHasConfig(c, v, cap); }
      RunKeepsHistory(c, front, cap);
      SteadyEvent(c, v, s, HistoryOf(c, front, cap), TrackOf(c, front, cap), RunAll(v, lines), events[n], cap);
    }
  }

  /**
   * In particular: when signatures succeed and payloads are carried, every log with a line is accepted;
   * in strict mode, when restarts are graceful, exactly when its last line is a signature.
   */
  lemma SteadyLogsAreAccepted(c: SignerConfig, v: VConfig, events: seq<Event>, cap: nat)
    requires SetupOk(c, v, cap) && |events| < TWO_64 - 1 && AllCarried(c, events, cap)
    requires forall k :: 0 <= k < |events| ==> EventOk(c, events[k]) && IsSteady(c, v, events[k])
    ensures var lines := Run(c, events, cap).1;
            Accepts(v, lines) <==> lines != [] && (v.strict ==> !TrackOf(c, events, cap).tail)
  {
    hide Run, EventOk, SetupOk, Flawed, TrackOf, Accepts, AllCarried, IsSteady, IsTidy;
    SteadyRun(c, v, events, cap);
    CarriedLogsAreDecided(c, v, events, cap);
  }
}

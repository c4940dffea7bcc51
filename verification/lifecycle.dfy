/**
 * Whole lives of the signer: messages, final signatures, graceful and crash restarts, with the
 * state file as the only thing that outlives a worker.
 */
module Lifecycle {
  import opened Wrappers
  import opened Octets
  import opened Crypto
  import opened SdRecords
  import opened HashChains
  import opened StateFile
  import opened Signer

  datatype Event =
    | Message(payload: string, sign: SignCall)
    | Close(sign: SignCall)
    | Restart(graceful: bool)

  datatype System = System(worker: WorkerState, disk: Option<string>)

  function Boot(c: SignerConfig): System {
    System(Restarted(c, None), None)
  }

  /** What a worker finds at its start. */
  function Found(c: SignerConfig, disk: Option<string>): Option<string> {
    if c.stateDir then disk else None
  }

  function DiskAfter(c: SignerConfig, s: System, graceful: bool): Option<string> {
    if !graceful || !c.stateDir then s.disk
    else match StateText(c, s.worker) case Some(t) => Some(t) case None => s.disk
  }

  /** The message call reads and drops the state of a pending restart. */
  predicate Consumes(c: SignerConfig, s: System) {
    s.worker.pending.Some? && c.stateDir && (s.worker.initialized || c.keyOk)
  }

  /** One event: the new state, and the log line if one is emitted. */
  function Next(c: SignerConfig, s: System, ev: Event, cap: nat): (System, Option<string>) {
    match ev
    case Message(payload, sign) =>
      var r := ProcessMsg(c, s.worker, payload, sign, cap);
      (System(r.worker, if Consumes(c, s) then None else s.disk),
       match r.out case Some(sd) => Some(sd + payload) case None => None)
    case Close(sign) =>
      var r := FinalSign(c, s.worker, sign, cap);
      (System(r.worker, s.disk), match r.code case Closed(sd) => Some(sd) case _ => None)
    case Restart(graceful) =>
      var disk := DiskAfter(c, s, graceful);
      (System(Restarted(c, Found(c, disk)), disk), None)
  }

  function Run(c: SignerConfig, events: seq<Event>, cap: nat): (System, seq<string>) {
    if |events| == 0 then (Boot(c), [])
    else
      var n := |events| - 1;
      var (s, lines) := Run(c, events[..n], cap);
      var (s', line) := Next(c, s, events[n], cap);
      (s', match line case Some(l) => lines + [l] case None => lines)
  }

  // ---------- What was fed, and what was signed ----------

  /** A signature over the chain fed with `fed[start..end]`. */
  datatype Signing = Signing(digest: octets, start: nat, end: nat)

  /**
   * Every payload fed to a chain, where the live chain and the stored chain start among them, the
   * stored start of the next signature, and every signature made.
   */
  datatype History = History(fed: seq<string>, live: nat, stored: nat, storedFrom: nat, signings: seq<Signing>)

  function Sign(h: History, signed: Option<octets>, fed: seq<string>, start: nat): seq<Signing> {
    match signed case Some(d) => h.signings + [Signing(d, start, |fed|)] case None => h.signings
  }

  function Follow(c: SignerConfig, s: System, h: History, ev: Event, cap: nat): History {
    match ev
    case Message(payload, sign) =>
      var w := s.worker;
      if !w.initialized && !c.keyOk then h
      else
        var fed := h.fed + [payload];
        var r := ProcessMsg(c, w, payload, sign, cap);
        if w.pending.Some? then
          History(fed, if r.worker.isFirst then |fed| else |h.fed|, h.stored, h.storedFrom,
                  Sign(h, r.signed, fed, h.stored))
        else
          var start := if w.initialized then h.live else |h.fed|;
          History(fed, start, h.stored, h.storedFrom, Sign(h, r.signed, fed, start))
    case Close(sign) =>
      var r := FinalSign(c, s.worker, sign, cap);
      if r.code.Idle? then h
      else
        var fed := h.fed + [""];
        h.(fed := fed, signings := Sign(h, r.signed, fed, h.live))
    case Restart(graceful) =>
      if graceful && c.stateDir && StateText(c, s.worker).Some? then
        h.(stored := h.live, storedFrom := s.worker.sigFrom)
      else h
  }

  function HistoryOf(c: SignerConfig, events: seq<Event>, cap: nat): History {
    if |events| == 0 then History([], 0, 0, 1, [])
    else
      var n := |events| - 1;
      Follow(c, Run(c, events[..n], cap).0, HistoryOf(c, events[..n], cap), events[n], cap)
  }

  /** The snapshot on disk, reconstructed from the history. */
  function StoredSnapshot(c: SignerConfig, h: History): Snapshot
    requires h.stored <= |h.fed|
  {
    var ps := h.fed[h.stored..];
    Snapshot(c.alg, Fold(c.prims, c.alg, ps), |ps| + 1, h.storedFrom, c.fp)
  }

  ghost predicate SigningOk(c: SignerConfig, h: History, g: Signing) {
    g.start < g.end <= |h.fed| && g.digest == Fold(c.prims, c.alg, h.fed[g.start..g.end])
  }

  /** Sequence numbers stay below 2^64. */
  predicate WithinRange(h: History) {
    |h.fed| < TWO_64 - 1
  }

  lemma FreshTracks(c: SignerConfig)
    ensures Tracks(c.prims, FreshChain(c.prims, c.alg), [])
  {
  }

  lemma CountIsNoMatter(p: Primitives, chain: ChainState, fed: seq<string>)
    ensures Tracks(p, chain.(count := 0), fed) == Tracks(p, chain, fed)
  {
  }

  /** The live chain, the stored chain and every signature are over contiguous runs of what was fed. */
  ghost predicate HistoryOk(c: SignerConfig, s: System, h: History) {
    && WorkerOk(c, s.worker)
    && h.live <= |h.fed| && h.stored <= |h.fed|
    && (s.worker.initialized ==>
         Tracks(c.prims, s.worker.chain, h.fed[h.live..]) && s.worker.chain.alg == c.alg && s.disk.None?)
    && (s.disk.Some? ==> h.storedFrom < TWO_64 && c.stateDir && s.disk == Some(SaveText(StoredSnapshot(c, h))))
    && (!s.worker.initialized ==> s.worker == Restarted(c, Found(c, s.disk)))
    && (forall g :: g in h.signings ==> SigningOk(c, h, g))
  }

  lemma FedGrows(c: SignerConfig, h: History, x: string, g: Signing)
    requires SigningOk(c, h, g)
    ensures SigningOk(c, h.(fed := h.fed + [x]), g)
  {
    hide Fold;
    assert (h.fed + [x])[g.start..g.end] == h.fed[g.start..g.end];
  }

  /** What a pending state resumes: the stored chain. */
  lemma PendingIsStored(c: SignerConfig, s: System, h: History)
    requires HistoryOk(c, s, h) && s.worker.pending.Some? && |h.fed| < TWO_64 - 1 && |c.fp| == HASH_LEN
    ensures !s.worker.initialized && s.disk.Some? && c.stateDir
    ensures var st := s.worker.pending.value;
            && Matches(c, st) && st.sigFrom == h.storedFrom
            && Tracks(c.prims, SavedChain(st), h.fed[h.stored..]) && SavedChain(st).alg == c.alg
  {
    hide Fold, LoadText, SaveText, FreshChain;
    var snap := StoredSnapshot(c, h);
    StateRoundTrip(snap);
    SavedIs(snap);
  }

  lemma SavedIs(snap: Snapshot)
    requires |snap.current| == HashLen(snap.alg)
    ensures var st := AsSaved(snap);
            && st.alg == snap.alg && st.sigFrom == snap.sigFrom && st.fp == snap.fp
            && SavedChain(st) == ChainState(snap.alg, snap.current, snap.next, 0)
  {
  }

  lemma SliceStep(fed: seq<string>, x: string, k: nat)
    requires k <= |fed|
    ensures (fed + [x])[k..] == fed[k..] + [x]
    ensures (fed + [x])[k..|fed + [x]|] == fed[k..] + [x]
  {
  }

  lemma SignedOk(
    c: SignerConfig, h: History, x: string, start: nat, chain: ChainState, signed: Option<octets>, h': History)
    requires start <= |h.fed| && Tracks(c.prims, chain, h.fed[start..]) && chain.alg == c.alg
    requires forall g :: g in h.signings ==> SigningOk(c, h, g)
    requires signed.Some? ==> signed.value == Extended(c.prims, chain, x).current
    requires h'.fed == h.fed + [x] && h'.signings == Sign(h, signed, h'.fed, start)
    ensures forall g :: g in h'.signings ==> SigningOk(c, h', g)
    ensures Tracks(c.prims, Extended(c.prims, chain, x), h'.fed[start..])
  {
    hide Fold, Link, Tracks;
    SliceStep(h.fed, x, start);
    ExtendTracks(c.prims, chain, h.fed[start..], x);
    assert h'.fed[start..] == h.fed[start..] + [x];
    forall g | g in h'.signings ensures SigningOk(c, h', g) {
      if g in h.signings {
        FedGrows(c, h, x, g);
        assert SigningOk(c, h', g);
      } else {
        assert signed.Some? && g == Signing(signed.value, start, |h'.fed|);
        TracksHead(c.prims, Extended(c.prims, chain, x), h'.fed[start..]);
        assert h'.fed[start..|h'.fed|] == h'.fed[start..];
      }
    }
  }

  lemma TracksHead(p: Primitives, chain: ChainState, fed: seq<string>)
    requires Tracks(p, chain, fed)
    ensures chain.current == Fold(p, chain.alg, fed)
  {
  }

  /** The configuration names a key whose fingerprint has its proper length. */
  predicate ConfigOk(c: SignerConfig) {
    |c.fp| == HASH_LEN
  }

  /** A worker that found nothing pending left nothing on disk for its successor. */
  lemma NoDisk(c: SignerConfig, s: System, h: History)
    requires HistoryOk(c, s, h) && s.worker.pending.None? && WithinRange(h) && ConfigOk(c)
    ensures s.disk.None?
  {
    hide Fold, LoadText, SaveText;
    if s.disk.Some? {
      StateRoundTrip(StoredSnapshot(c, h));
    }
  }

  /** What one appended payload does to the worker. */
  lemma AppendChain(c: SignerConfig, w: WorkerState, payload: string, sign: SignCall, cap: nat)
    ensures var s := Append(c, w, payload, sign, cap);
            var chain := Extended(c.prims, w.chain, payload);
            && s.worker.chain in {chain, chain.(count := 0)}
            && s.worker.initialized == w.initialized && s.worker.pending == w.pending
            && !s.worker.isFirst
            && (s.signed.Some? ==> s.signed.value == chain.current && !w.isFirst)
  {
    hide Link, FormatRecord, WithCert;
  }

  lemma MessageLive(c: SignerConfig, s: System, h: History, payload: string, sign: SignCall, cap: nat)
    requires HistoryOk(c, s, h) && WithinRange(h) && ConfigOk(c)
    requires s.worker.pending.None? && (s.worker.initialized || c.keyOk)
    ensures HistoryOk(c, Next(c, s, Message(payload, sign), cap).0, Follow(c, s, h, Message(payload, sign), cap))
  {
    hide Fold, Link, Append, SaveText, LoadText, Tracks, WorkerOk, InitHash, SigningOk;
    var ev := Message(payload, sign);
    var (s', h') := (Next(c, s, ev, cap).0, Follow(c, s, h, ev, cap));
    var w0 := if s.worker.initialized then s.worker else JustInitialized(c, s.worker);
    var start := if s.worker.initialized then h.live else |h.fed|;
    var chain := Extended(c.prims, w0.chain, payload);
    ProcessMsgKeeps(c, s.worker, payload, sign, cap);
    AppendChain(c, w0, payload, sign, cap);
    FreshTracks(c);
    assert h.fed[|h.fed|..] == [];
    SignedOk(c, h, payload, start, w0.chain, Append(c, w0, payload, sign, cap).signed, h');
    CountIsNoMatter(c.prims, chain, h'.fed[start..]);
    NoDisk(c, s, h);
  }

  lemma FinalShape(c: SignerConfig, w: WorkerState, st: Saved, payload: string, sign: SignCall, cap: nat)
    requires IsFresh(c, w)
    ensures var f := ProcessFinal(c, w, st, payload, sign, cap);
            && f.worker == w
            && (f.signed.Some? ==> f.signed.value == Extended(c.prims, SavedChain(st), payload).current)
            && (f.code.Emitted? ==> f.signed.Some?)
  {
    hide Link, InitHash, FormatRecord;
  }

  lemma MessagePending(c: SignerConfig, s: System, h: History, payload: string, sign: SignCall, cap: nat)
    requires HistoryOk(c, s, h) && WithinRange(h) && ConfigOk(c)
    requires s.worker.pending.Some? && c.keyOk
    ensures HistoryOk(c, Next(c, s, Message(payload, sign), cap).0, Follow(c, s, h, Message(payload, sign), cap))
  {
    hide Fold, Link, Append, ProcessFinal, SaveText, LoadText, Tracks, WorkerOk, InitHash, SigningOk, SavedChain;
    var ev := Message(payload, sign);
    var (s', h') := (Next(c, s, ev, cap).0, Follow(c, s, h, ev, cap));
    PendingIsStored(c, s, h);
    var st := s.worker.pending.value;
    var w0 := JustInitialized(c, s.worker).(pending := None);
    var f := ProcessFinal(c, w0, st, payload, sign, cap);
    FinalShape(c, w0, st, payload, sign, cap);
    AppendChain(c, w0, payload, sign, cap);
    ProcessMsgKeeps(c, s.worker, payload, sign, cap);
    SignedOk(c, h, payload, h.stored, SavedChain(st), f.signed, h');
    FreshTracks(c);
    assert h.fed[|h.fed|..] == [] && h'.fed[|h'.fed|..] == [];
    SignedOk(c, h, payload, |h.fed|, w0.chain, None, h'.(signings := h.signings));
    CountIsNoMatter(c.prims, Extended(c.prims, w0.chain, payload), h'.fed[|h.fed|..]);
  }

  lemma CloseStep(c: SignerConfig, s: System, h: History, sign: SignCall, cap: nat)
    requires HistoryOk(c, s, h)
    ensures HistoryOk(c, Next(c, s, Close(sign), cap).0, Follow(c, s, h, Close(sign), cap))
  {
    hide Fold, Link, FormatRecord, SaveText, LoadText, Tracks, WorkerOk, SigningOk;
    var ev := Close(sign);
    var h' := Follow(c, s, h, ev, cap);
    FinalSignKeeps(c, s.worker, sign, cap);
    var r := FinalSign(c, s.worker, sign, cap);
    if !r.code.Idle? {
      SignedOk(c, h, "", h.live, s.worker.chain, r.signed, h');
      CountIsNoMatter(c.prims, Extended(c.prims, s.worker.chain, ""), h'.fed[h.live..]);
    }
  }

  lemma RestartStep(c: SignerConfig, s: System, h: History, graceful: bool)
    requires HistoryOk(c, s, h) && WithinRange(h)
    ensures HistoryOk(c, Next(c, s, Restart(graceful), 0).0, Follow(c, s, h, Restart(graceful), 0))
    ensures forall cap :: Next(c, s, Restart(graceful), cap) == Next(c, s, Restart(graceful), 0)
  {
    hide Fold, SaveText, LoadText, SigningOk, InitHash;
    var h' := Follow(c, s, h, Restart(graceful), 0);
    forall g | g in h'.signings ensures SigningOk(c, h', g) {
      SameFed(c, h, h', g);
    }
  }

  lemma SameFed(c: SignerConfig, h: History, h': History, g: Signing)
    requires SigningOk(c, h, g) && h'.fed == h.fed
    ensures SigningOk(c, h', g)
  {
  }

  /** Every event keeps the history, failed calls, crashes and unlucky signatures included. */
  lemma HistoryStep(c: SignerConfig, s: System, h: History, ev: Event, cap: nat)
    requires HistoryOk(c, s, h) && WithinRange(h) && ConfigOk(c)
    ensures HistoryOk(c, Next(c, s, ev, cap).0, Follow(c, s, h, ev, cap))
    ensures |Follow(c, s, h, ev, cap).fed| <= |h.fed| + 1
  {
    hide HistoryOk, ProcessMsg, FinalSign;
    match ev
    case Message(payload, sign) =>
      if s.worker.pending.Some? && (s.worker.initialized || c.keyOk) {
        assert !s.worker.initialized by { PendingIsStored(c, s, h); }
        MessagePending(c, s, h, payload, sign, cap);
      } else if s.worker.initialized || c.keyOk {
        MessageLive(c, s, h, payload, sign, cap);
      } else {
        DeadMessage(c, s, h, payload, sign, cap);
      }
    case Close(sign) => CloseStep(c, s, h, sign, cap);
    case Restart(graceful) => RestartStep(c, s, h, graceful);
  }

  lemma DeadMessage(c: SignerConfig, s: System, h: History, payload: string, sign: SignCall, cap: nat)
    requires !s.worker.initialized && !c.keyOk
    ensures Next(c, s, Message(payload, sign), cap) == (s, None)
    ensures Follow(c, s, h, Message(payload, sign), cap) == h
  {
  }

  lemma {:induction false} RunKeepsHistory(c: SignerConfig, events: seq<Event>, cap: nat)
    requires |events| < TWO_64 - 1 && ConfigOk(c)
    ensures HistoryOk(c, Run(c, events, cap).0, HistoryOf(c, events, cap))
    ensures |HistoryOf(c, events, cap).fed| <= |events|
  {
    hide Next, Follow, Fold, LoadText, SaveText;
    if |events| > 0 {
      var n := |events| - 1;
      RunKeepsHistory(c, events[..n], cap);
      HistoryStep(c, Run(c, events[..n], cap).0, HistoryOf(c, events[..n], cap), events[n], cap);
    }
  }
}

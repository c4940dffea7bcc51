/**
 * The signing worker: what one call does to its state and what it emits, as functions, and the
 * object whose methods do it in place.
 */
module Signer {
  import opened Wrappers
  import opened Octets
  import opened Crypto
  import opened SdRecords
  import opened HashChains
  import opened StateFile

  /** `cert` is the certificate to embed; `keyOk` says whether the private key loads. */
  datatype SignerConfig = SignerConfig(
    prims: Primitives, alg: HashAlg, fp: octets, interval: nat, cert: Option<octets>, stateDir: bool, keyOk: bool)

  datatype WorkerState = WorkerState(
    chain: ChainState, sigFrom: nat, initialized: bool, isFirst: bool, pending: Option<Saved>)

  /** What the signing primitive answers in one call: a signature for a digest, or a failure. */
  type SignCall = octets -> Option<octets>

  /** The state after a call, the element emitted (None is a failed call), and the digest signed. */
  datatype Step = Step(worker: WorkerState, out: Option<string>, signed: Option<octets>)

  datatype FinalCode = Emitted(sd: string) | KeyMismatch | Failure

  datatype FinalStep = FinalStep(worker: WorkerState, code: FinalCode, signed: Option<octets>)

  datatype ClosingCode = Idle | Closed(sd: string) | ClosingFailed

  datatype ClosingStep = ClosingStep(worker: WorkerState, code: ClosingCode, signed: Option<octets>)

  function JustInitialized(c: SignerConfig, w: WorkerState): WorkerState {
    WorkerState(FreshChain(c.prims, c.alg), 1, true, true, w.pending)
  }

  function FirstOctets(b: octets, n: nat): (r: octets)
    ensures |r| == n
  {
    if |b| >= n then b[..n] else b + Zeros(n - |b|)
  }

  /** The chain a saved state describes. */
  function SavedChain(st: Saved): ChainState {
    ChainState(st.alg, FirstOctets(st.hash, HashLen(st.alg)), st.next, 0)
  }

  predicate Matches(c: SignerConfig, st: Saved) {
    st.fp == c.fp && st.alg == c.alg
  }

  /** Signs one payload as the last entry of a saved chain and starts a fresh one. */
  function ProcessFinal(
    c: SignerConfig, w: WorkerState, st: Saved, payload: string, sign: SignCall, cap: nat): FinalStep
  {
    if !Matches(c, st) then FinalStep(w, KeyMismatch, None)
    else
      var chain := Extended(c.prims, SavedChain(st), payload);
      var restarted := FreshChain(c.prims, c.alg);
      match sign(chain.current)
      case None => FinalStep(w.(chain := restarted), Failure, None)
      case Some(sig) =>
        var n := chain.next - 1;
        var w' := w.(chain := restarted, isFirst := true, sigFrom := 1);
        match FormatRecord(SigRecord(n, chain.current, st.sigFrom, n, sig), cap)
        case None => FinalStep(w', Failure, Some(chain.current))
        case Some(sd) => FinalStep(w', Emitted(sd), Some(chain.current))
  }

  function WithCert(c: SignerConfig, sd: string, cap: nat): string {
    if c.cert.None? || |sd| > cap then sd
    else
      match FormatCert(c.cert.value, cap - |sd|)
      case Some(t) => sd + t
      case None => sd
  }

  /** Chains one payload and emits its record. */
  function Append(c: SignerConfig, w: WorkerState, payload: string, sign: SignCall, cap: nat): Step {
    var chain := Extended(c.prims, w.chain, payload);
    var n := chain.next - 1;
    if w.isFirst then
      var w' := w.(chain := chain, isFirst := false);
      match FormatRecord(InitRecord(n, chain.current, c.fp), cap)
      case None => Step(w', None, None)
      case Some(sd) => Step(w', Some(WithCert(c, sd, cap)), None)
    else if chain.count >= c.interval then
      match sign(chain.current)
      case None => Step(w.(chain := chain), None, None)
      case Some(sig) =>
        Step(w.(chain := chain.(count := 0), sigFrom := n + 1),
             FormatRecord(SigRecord(n, chain.current, w.sigFrom, n, sig), cap), Some(chain.current))
    else
      Step(w.(chain := chain), FormatRecord(MsgRecord(n, chain.current), cap), None)
  }

  function ProcessMsg(c: SignerConfig, w: WorkerState, payload: string, sign: SignCall, cap: nat): Step {
    if !w.initialized && !c.keyOk then Step(w, None, None)
    else
      var w0 := if w.initialized then w else JustInitialized(c, w);
      if w0.pending.None? then Append(c, w0, payload, sign, cap)
      else
        var f := ProcessFinal(c, w0.(pending := None), w0.pending.value, payload, sign, cap);
        if f.code.Emitted? then Step(f.worker, Some(f.code.sd), f.signed)
        else
          var s := Append(c, f.worker, payload, sign, cap);
          s.(signed := if s.signed.Some? then s.signed else f.signed)
  }

  /** Extends the chain with an empty payload and signs it, when anything is unsigned. */
  function FinalSign(c: SignerConfig, w: WorkerState, sign: SignCall, cap: nat): ClosingStep {
    if !w.initialized || w.chain.count == 0 then ClosingStep(w, Idle, None)
    else
      var chain := Extended(c.prims, w.chain, "");
      var n := chain.next - 1;
      match sign(chain.current)
      case None => ClosingStep(w.(chain := chain), ClosingFailed, None)
      case Some(sig) =>
        match FormatRecord(SigRecord(n, chain.current, w.sigFrom, n, sig), cap)
        case None => ClosingStep(w.(chain := chain), ClosingFailed, Some(chain.current))
        case Some(sd) =>
          ClosingStep(w.(chain := chain.(count := 0), sigFrom := n + 1), Closed(sd), Some(chain.current))
  }

  /** What a stopping worker writes to the state file: nothing unless something is unsigned. */
  function StateText(c: SignerConfig, w: WorkerState): Option<string> {
    if !w.initialized || w.chain.count == 0 then None
    else Some(SaveText(WorkerSnapshot(c, w)))
  }

  function WorkerSnapshot(c: SignerConfig, w: WorkerState): Snapshot {
    Snapshot(w.chain.alg, w.chain.current, w.chain.next, w.sigFrom, c.fp)
  }

  // ---------- Counting ----------

  /** Unsigned messages are exactly the numbers from the next signature's start on. */
  predicate Counts(w: WorkerState) {
    w.chain.count == w.chain.next - w.sigFrom
  }

  predicate IsFresh(c: SignerConfig, w: WorkerState) {
    w.chain == FreshChain(c.prims, c.alg) && w.sigFrom == 1 && w.isFirst
  }

  predicate WorkerOk(c: SignerConfig, w: WorkerState) {
    w.initialized ==>
      && Counts(w) && 0 < w.sigFrom && w.pending.None?
      && w.chain.alg == c.alg && |w.chain.current| == HashLen(c.alg)
      && (w.isFirst ==> IsFresh(c, w))
      && (!w.isFirst ==> w.chain.next > 1)
  }

  /** The longest run of unsigned messages the interval allows. */
  function TailLimit(c: SignerConfig): nat {
    if c.interval <= 2 then 1 else c.interval - 1
  }

  /**
   * From a just-initialised worker every outcome of `ProcessFinal` leaves a fresh chain, so a
   * message that falls through is chained once, as the first of the chain that survives.
   */
  lemma FinalLeavesFresh(c: SignerConfig, w: WorkerState, st: Saved, payload: string, sign: SignCall, cap: nat)
    requires IsFresh(c, w)
    ensures var f := ProcessFinal(c, w, st, payload, sign, cap);
            && IsFresh(c, f.worker) && f.worker.initialized == w.initialized && f.worker.pending == w.pending
            && f.worker == w
  {
    hide Link, InitHash, FormatRecord;
  }

  /**
   * From any other worker a failed signature resets the chain but not the start of the next
   * signature or the first-record flag; counting survives exactly when that start is still 1.
   */
  lemma FinalKeepsCount(c: SignerConfig, w: WorkerState, st: Saved, payload: string, sign: SignCall, cap: nat)
    requires Counts(w)
    ensures Counts(ProcessFinal(c, w, st, payload, sign, cap).worker) <==>
              || !Matches(c, st)
              || sign(Extended(c.prims, SavedChain(st), payload).current).Some?
              || w.sigFrom == 1
  {
    hide Link, InitHash, FormatRecord;
  }

  /** A worker whose chain was fed two payloads and signed after the first. */
  function HalfSigned(c: SignerConfig, x: string, y: string): WorkerState {
    var one := Extended(c.prims, FreshChain(c.prims, c.alg), x).(count := 0);
    WorkerState(Extended(c.prims, one, y), 2, true, false, None)
  }

  /**
   * Handed such a worker, a state that matches and a signature that fails, the call leaves a count that
   * no longer counts.  The signer itself makes the call only on a just-initialised worker.
   */
  lemma CountingCanBeLost(
    c: SignerConfig, x: string, y: string, st: Saved, payload: string, sign: SignCall, cap: nat)
    requires Matches(c, st) && sign(Extended(c.prims, SavedChain(st), payload).current).None?
    ensures var w := HalfSigned(c, x, y);
            && WorkerOk(c, w) && Tracks(c.prims, w.chain, [x, y])
            && !Counts(ProcessFinal(c, w, st, payload, sign, cap).worker)
  {
    hide Link, InitHash, FormatRecord;
    ExtendTracks(c.prims, FreshChain(c.prims, c.alg), [], x);
    ExtendTracks(c.prims, Extended(c.prims, FreshChain(c.prims, c.alg), x).(count := 0), [x], y);
    assert [] + [x] == [x] && [x] + [y] == [x, y];
    FinalKeepsCount(c, HalfSigned(c, x, y), st, payload, sign, cap);
  }

  /**
   * A pending state that cannot be finished, for whatever reason, costs nothing: the payload is
   * chained exactly once, as the first entry of the chain that survives.
   */
  lemma UnfinishedStateIsDropped(c: SignerConfig, w: WorkerState, st: Saved, payload: string, sign: SignCall, cap: nat)
    requires !w.initialized && c.keyOk && w.pending == Some(st)
    requires !ProcessFinal(c, JustInitialized(c, w).(pending := None), st, payload, sign, cap).code.Emitted?
    ensures var s := ProcessMsg(c, w, payload, sign, cap);
            && s.worker.chain == Extended(c.prims, FreshChain(c.prims, c.alg), payload)
            && s.worker.pending.None? && !s.worker.isFirst
            && Tracks(c.prims, s.worker.chain, [payload])
  {
    hide Link, InitHash, FormatRecord, WithCert;
    var w0 := JustInitialized(c, w).(pending := None);
    FinalLeavesFresh(c, w0, st, payload, sign, cap);
    ExtendTracks(c.prims, FreshChain(c.prims, c.alg), [], payload);
    assert [] + [payload] == [payload];
  }

  lemma AppendKeeps(c: SignerConfig, w: WorkerState, payload: string, sign: SignCall, cap: nat)
    requires w.initialized && WorkerOk(c, w)
    ensures var s := Append(c, w, payload, sign, cap);
            && s.worker.initialized && WorkerOk(c, s.worker)
            && (s.out.Some? ==> s.worker.chain.count <= TailLimit(c))
            && s.worker.chain.next == w.chain.next + 1
  {
    hide Link, InitHash, FormatRecord, WithCert;
  }

  /**
   * Every call keeps the counting invariant, failed calls included; after a call that emits a
   * record the unsigned tail is within the interval.
   */
  lemma ProcessMsgKeeps(c: SignerConfig, w: WorkerState, payload: string, sign: SignCall, cap: nat)
    requires WorkerOk(c, w)
    ensures var s := ProcessMsg(c, w, payload, sign, cap);
            && WorkerOk(c, s.worker)
            && (s.out.Some? ==> s.worker.initialized && s.worker.chain.count <= TailLimit(c))
  {
    hide Append, ProcessFinal, Link, InitHash;
    if w.initialized {
      AppendKeeps(c, w, payload, sign, cap);
    } else if c.keyOk {
      var w0 := JustInitialized(c, w).(pending := None);
      AppendKeeps(c, w0, payload, sign, cap);
      if w.pending.Some? {
        FinalLeavesFresh(c, w0, w.pending.value, payload, sign, cap);
      }
    }
  }

  lemma FinalSignKeeps(c: SignerConfig, w: WorkerState, sign: SignCall, cap: nat)
    requires WorkerOk(c, w)
    ensures var s := FinalSign(c, w, sign, cap);
            WorkerOk(c, s.worker) && (s.code.Closed? ==> s.worker.chain.count == 0)
  {
    hide Link, InitHash, FormatRecord;
  }

  // ---------- Restart ----------

  lemma SnapshotOk(c: SignerConfig, w: WorkerState)
    requires WorkerOk(c, w) && w.initialized && w.chain.next < TWO_64 && |c.fp| == HASH_LEN
    ensures IsSnapshot(WorkerSnapshot(c, w))
    ensures LoadText(SaveText(WorkerSnapshot(c, w))) == Some(AsSaved(WorkerSnapshot(c, w)))
    ensures SavedChain(AsSaved(WorkerSnapshot(c, w))) == w.chain.(count := 0)
    ensures Matches(c, AsSaved(WorkerSnapshot(c, w)))
  {
    hide LoadText, SaveText, FreshChain;
    StateRoundTrip(WorkerSnapshot(c, w));
  }

  /** A worker started from what the state directory holds. */
  function Restarted(c: SignerConfig, text: Option<string>): WorkerState {
    WorkerState(FreshChain(c.prims, c.alg), 1, false, true,
                match text case Some(t) => LoadText(t) case None => None)
  }

  /** The same configuration with every message due for signing. */
  function AlwaysDue(c: SignerConfig): SignerConfig {
    c.(interval := 0)
  }

  /**
   * Restart refines the uninterrupted chain: saving, loading and processing a payload emits the
   * very record, over the very digest, that the worker would have emitted had it never stopped and
   * had the payload been due for signing.
   */
  lemma RestartRefines(c: SignerConfig, w: WorkerState, payload: string, sign: SignCall, cap: nat)
    requires WorkerOk(c, w) && w.initialized && !w.isFirst && w.chain.count > 0
    requires w.chain.next < TWO_64 && |c.fp| == HASH_LEN && c.keyOk
    ensures StateText(c, w).Some?
    ensures var resumed := ProcessMsg(c, Restarted(c, StateText(c, w)), payload, sign, cap);
            var kept := ProcessMsg(AlwaysDue(c), w, payload, sign, cap);
            && resumed.signed.Some? == kept.signed.Some?
            && (kept.out.Some? ==> resumed.out == kept.out && resumed.signed == kept.signed)
            && (kept.out.Some? ==> IsFresh(c, resumed.worker))
  {
    hide LoadText, SaveText, FormatRecord, Link, AsSaved, SavedChain, WithCert;
    SnapshotOk(c, w);
    var st := AsSaved(WorkerSnapshot(c, w));
    assert st.sigFrom == w.sigFrom by { SavedFields(c, w); }
    var chain := Extended(c.prims, w.chain, payload);
    assert Extended(c.prims, SavedChain(st), payload).(count := 0) == chain.(count := 0);
  }

  lemma SavedFields(c: SignerConfig, w: WorkerState)
    requires |w.chain.current| <= HASH_MAX_LEN
    ensures AsSaved(WorkerSnapshot(c, w)).sigFrom == w.sigFrom
  {
  }
}

/** Short lives whose logs are rejected, in every configuration and in a concrete one. */
module FlawedLives {
  import opened Wrappers
  import opened Octets
  import opened Crypto
  import opened SdRecords
  import opened HashChains
  import opened LogVerifier
  import opened Signer
  import opened Lifecycle
  import opened Carriage
  import opened Completeness
  import opened SteadyLives

  lemma LifeSnoc(c: SignerConfig, v: VConfig, events: seq<Event>, ev: Event, cap: nat)
    ensures var (s, lines) := Run(c, events, cap);
            var (s', line) := Next(c, s, ev, cap);
            Run(c, events + [ev], cap) == (s', match line case Some(l) => lines + [l] case None => lines)
    ensures var (s, t) := (Run(c, events, cap).0, TrackOf(c, events, cap));
            && TrackOf(c, events + [ev], cap) == TrackAfter(c, s, t, ev, cap)
            && (Flawed(c, v, events + [ev], cap) <==> Flawed(c, v, events, cap) || Flaw(c, v, s, t, ev, cap))
            && (AllCarried(c, events + [ev], cap) <==>
                 && AllCarried(c, events, cap)
                 && (Next(c, s, ev, cap).1.Some? ==> !Miscarried(c, s, ev, cap)))
  {
    hide Next, TrackAfter, Flaw, Miscarried;
    assert (events + [ev])[..|events|] == events;
  }

  lemma LifeNone(c: SignerConfig, v: VConfig, cap: nat)
    ensures Run(c, [], cap) == (Boot(c), []) && TrackOf(c, [], cap) == Track(false, false)
    ensures !Flawed(c, v, [], cap) && AllCarried(c, [], cap)
  {
  }

  /** The signer after its first message. */
  function AfterFirst(c: SignerConfig, payload: string): WorkerState {
    WorkerState(ChainState(c.alg, FirstRecord(c, payload).hash, 2, 1), 1, true, false, None)
  }

  lemma FirstMessage(c: SignerConfig, payload: string, sign: SignCall, t: Track, cap: nat)
    requires ConfigOk(c) && c.keyOk && cap >= SD_MAX_LEN && Carried(PrintedCert(c, cap), payload)
    ensures var ev := Message(payload, sign);
            && Next(c, Boot(c), ev, cap).0 == System(AfterFirst(c, payload), None)
            && Next(c, Boot(c), ev, cap).1.Some? && Opens(c, Boot(c), ev, cap) && !Miscarried(c, Boot(c), ev, cap)
            && TrackAfter(c, Boot(c), t, ev, cap) == Track(false, true)
  {
    hide Link, InitHash, RenderRecord, Append, FirstRecord, PrintedCert, CertText, FreshChain, Carried;
    FirstEmits(c, JustInitialized(c, Boot(c).worker), payload, sign, cap);
  }

  lemma AfterFirstOk(c: SignerConfig, payload: string, next: string)
    ensures var w := AfterFirst(c, payload);
            IsLive(w) && WorkerOk(c, w) && WorkerOk(c, w.(chain := Extended(c.prims, w.chain, next)))
  {
    hide Link, InitHash;
  }

  lemma LiveMessage(c: SignerConfig, w: WorkerState, payload: string, sign: SignCall, t: Track, cap: nat)
    requires IsLive(w) && w.pending.None? && WorkerOk(c, w) && w.chain.next < TWO_64 && w.chain.count + 1 >= c.interval
    requires cap >= SD_MAX_LEN && Sound(c, sign) && Carried(None, payload)
    ensures var (s, ev) := (System(w, None), Message(payload, sign));
            var signs := sign(Extended(c.prims, w.chain, payload).current).Some?;
            && (Next(c, s, ev, cap).1.Some? <==> signs) && !Opens(c, s, ev, cap) && !Miscarried(c, s, ev, cap)
            && (!signs ==>
                 && Next(c, s, ev, cap).0 == System(w.(chain := Extended(c.prims, w.chain, payload)), None)
                 && TrackAfter(c, s, t, ev, cap) == t.(gap := true))
  {
    hide Link, InitHash, RenderRecord, FormatRecord, FreshChain, Carried, WorkerOk;
    SilentLive(c, w, payload, sign, cap);
  }

  ghost predicate Refuses(sign: SignCall) {
    forall d :: sign(d).None?
  }

  /** Three messages, the second of which is due for a signature that fails. */
  function LostSignature(good: SignCall, bad: SignCall): seq<Event> {
    [Message("", good), Message("", bad), Message("", good)]
  }

  /** The failed signature leaves a gap, and the message after it gets a line that spoils the log. */
  lemma LostSignatureIsRejected(c: SignerConfig, v: VConfig, good: SignCall, bad: SignCall, cap: nat)
    requires SetupOk(c, v, cap) && c.interval <= 2 && Carried(PrintedCert(c, cap), "")
    requires Sound(c, good) && Succeeds(good) && Refuses(bad)
    ensures var events := LostSignature(good, bad);
            && (forall k :: 0 <= k < |events| ==> EventOk(c, events[k]))
            && TrackOf(c, events[..2], cap).gap && |Run(c, events, cap).1| == 2
            && !Accepts(v, Run(c, events, cap).1)
  {
    hide Next, TrackAfter, Accepts, SetupOk, Link, InitHash, Carried, Run, TrackOf, Flawed, AllCarried, Opens,
      Miscarried, Misplaced, PrintedCert, FirstRecord;
    var events := LostSignature(good, bad);
    var (m1, m2, m3) := (events[0], events[1], events[2]);
    assert events[..2] == [m1, m2] && events == [m1, m2] + [m3] && [m1, m2] == [m1] + [m2] && [m1] == [] + [m1];
    var w := AfterFirst(c, "");
    var w' := w.(chain := Extended(c.prims, w.chain, ""));
    SetupParts(c, v, cap);
    NothingIsCarried();
    AfterFirstOk(c, "", "");
    LifeNone(c, v, cap);
    LifeSnoc(c, v, [], m1, cap);
    FirstMessage(c, "", good, Track(false, false), cap);
    LifeSnoc(c, v, [m1], m2, cap);
    LiveMessage(c, w, "", bad, Track(false, true), cap);
    LifeSnoc(c, v, [m1, m2], m3, cap);
    LiveMessage(c, w', "", good, Track(true, true), cap);
    FailedSignatureIsFatal(c, v, [m1, m2], m3, cap);
  }

  lemma SetupParts(c: SignerConfig, v: VConfig, cap: nat)
    requires SetupOk(c, v, cap)
    ensures ConfigOk(c) && c.keyOk && cap >= SD_MAX_LEN
  {
  }

  lemma NothingIsCarried()
    ensures Carried(None, "")
  {
    EmptyIsFree(CERT_MARK);
  }

  /** A message, a crash, and a message of the worker that comes after it. */
  function CrashBehindTail(good: SignCall): seq<Event> {
    [Message("", good), Restart(false), Message("", good)]
  }

  /** A crash behind an unsigned tail is what strict mode rejects, and only strict mode. */
  lemma CrashIsRejectedStrictly(c: SignerConfig, v: VConfig, good: SignCall, cap: nat)
    requires SetupOk(c, v, cap) && Sound(c, good) && Carried(PrintedCert(c, cap), "")
    ensures var events := CrashBehindTail(good);
            && (forall k :: 0 <= k < |events| ==> EventOk(c, events[k]))
            && |Run(c, events, cap).1| == 2
            && (Accepts(v, Run(c, events, cap).1) <==> !v.strict)
  {
    hide Next, TrackAfter, Accepts, SetupOk, Link, InitHash, Carried, Run, TrackOf, Flawed, AllCarried, Opens,
      Miscarried, PrintedCert, FirstRecord;
    var events := CrashBehindTail(good);
    var (m1, m2, m3) := (events[0], events[1], events[2]);
    assert events == [m1, m2] + [m3] && [m1, m2] == [m1] + [m2] && [m1] == [] + [m1];
    var w := AfterFirst(c, "");
    SetupParts(c, v, cap);
    LifeNone(c, v, cap);
    LifeSnoc(c, v, [], m1, cap);
    FirstMessage(c, "", good, Track(false, false), cap);
    LifeSnoc(c, v, [m1], m2, cap);
    CrashForgets(c, v, w, Track(false, true), cap);
    LifeSnoc(c, v, [m1, m2], m3, cap);
    FirstMessage(c, "", good, Track(false, true), cap);
    CarriedLogsAreDecided(c, v, events, cap);
  }

  lemma CrashForgets(c: SignerConfig, v: VConfig, w: WorkerState, t: Track, cap: nat)
    ensures var s := System(w, None);
            && Next(c, s, Restart(false), cap) == (Boot(c), None)
            && TrackAfter(c, s, t, Restart(false), cap) == t.(gap := false)
            && !Flaw(c, v, s, t, Restart(false), cap)
  {
  }

  // ---------- A concrete signer ----------

  /** A digest that is always zero, a key that accepts every signature, and every message signed. */
  function Sample(): SignerConfig {
    var prims := Primitives((alg, text) => [], (digest, signature) => Valid);
    SignerConfig(prims, Sha256, Zeros(HASH_LEN), 1, None, false, true)
  }

  function Signs(digest: octets): Option<octets> {
    Some([])
  }

  function Fails(digest: octets): Option<octets> {
    None
  }

  lemma SampleIsSound(strict: bool)
    ensures SetupOk(Sample(), VConfig(Sample().prims, Sample().fp, strict), SD_MAX_LEN)
    ensures Sound(Sample(), Signs) && Succeeds(Signs) && Refuses(Fails)
    ensures Carried(PrintedCert(Sample(), SD_MAX_LEN), "")
  {
    NothingIsCarried();
  }

  /** Both lives exist: a signature that fails, and a crash that a strict verifier does not forgive. */
  lemma SampleLives()
    ensures var (c, cap) := (Sample(), SD_MAX_LEN);
            && !Accepts(VConfig(c.prims, c.fp, false), Run(c, LostSignature(Signs, Fails), cap).1)
            && Accepts(VConfig(c.prims, c.fp, false), Run(c, CrashBehindTail(Signs), cap).1)
            && !Accepts(VConfig(c.prims, c.fp, true), Run(c, CrashBehindTail(Signs), cap).1)
  {
    hide Accepts, Run, SetupOk, Carried, PrintedCert, Sound, Succeeds, Refuses;
    var (c, cap) := (Sample(), SD_MAX_LEN);
    SampleIsSound(false);
    SampleIsSound(true);
    assert c.interval <= 2;
    LostSignatureIsRejected(c, VConfig(c.prims, c.fp, false), Signs, Fails, cap);
    CrashIsRejectedStrictly(c, VConfig(c.prims, c.fp, false), Signs, cap);
    CrashIsRejectedStrictly(c, VConfig(c.prims, c.fp, true), Signs, cap);
  }
}

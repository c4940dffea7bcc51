/** What each call of the signer writes, signs and leaves, and when a signature is due over its life. */
module Calls {
  import opened Wrappers
  import opened Octets
  import opened Crypto
  import opened SdRecords
  import opened HashChains
  import opened StateFile
  import opened Signer
  import opened Lifecycle
  import opened Carriage
  import opened Completeness
  import opened SteadyLives

  // ---------- A message on a chain in progress ----------

  /**
   * A message that is due is signed over everything since the last signature; one that is not gets a
   * plain record, is not signed, and stays for the next signature; a signature that fails leaves the
   * payload in the chain and writes nothing.
   */
  lemma MessageWrites(c: SignerConfig, w: WorkerState, payload: string, sign: SignCall, cap: nat)
    requires IsLive(w) && WorkerOk(c, w) && w.chain.next < TWO_64 && cap >= SD_MAX_LEN && Sound(c, sign)
    ensures var s := ProcessMsg(c, w, payload, sign, cap);
            var (n, h) := (w.chain.next, Link(c.prims, c.alg, w.chain.current, w.chain.next, payload));
            if w.chain.count + 1 < c.interval then
              && s.out == Some(RenderRecord(MsgRecord(n, h))) && s.signed == None
              && s.worker == w.(chain := ChainState(c.alg, h, n + 1, w.chain.count + 1))
            else
              match sign(h)
              case Some(sig) =>
                && s.out == Some(RenderRecord(SigRecord(n, h, w.sigFrom, n, sig))) && s.signed == Some(h)
                && s.worker == w.(chain := ChainState(c.alg, h, n + 1, 0), sigFrom := n + 1)
              case None =>
                && s.out == None && s.signed == None
                && s.worker == w.(chain := ChainState(c.alg, h, n + 1, w.chain.count + 1))
  {
    hide Link, InitHash, RenderRecord, FormatRecord, FreshChain, IsPrintable, Follows;
    if w.chain.count + 1 < c.interval {
      MessageFollows(c, w.chain, w.sigFrom, payload, cap);
    } else if sign(Extended(c.prims, w.chain, payload).current).Some? {
      ClosingFollows(c, w.chain, w.sigFrom, payload, sign, cap);
    }
  }

  /** The same as the verifier's parser sees it: a signature record exactly when one is due. */
  lemma MessageParses(c: SignerConfig, w: WorkerState, payload: string, sign: SignCall, cap: nat)
    requires IsLive(w) && WorkerOk(c, w) && w.chain.next < TWO_64 && cap >= SD_MAX_LEN
    requires Sound(c, sign) && Succeeds(sign)
    ensures var s := ProcessMsg(c, w, payload, sign, cap);
            var (n, h) := (w.chain.next, Link(c.prims, c.alg, w.chain.current, w.chain.next, payload));
            && s.out.Some?
            && if w.chain.count + 1 >= c.interval then
                 && sign(h).Some? && s.signed == Some(h)
                 && ParseSd(s.out.value) == Parsed(SigRecord(n, h, w.sigFrom, n, sign(h).value))
               else ParseSd(s.out.value) == Parsed(MsgRecord(n, h)) && s.signed == None
  {
    hide Link, InitHash, RenderRecord, FormatRecord, FreshChain, Follows, ParseSd, ProcessMsg;
    var (n, h) := (w.chain.next, Link(c.prims, c.alg, w.chain.current, w.chain.next, payload));
    MessageWrites(c, w, payload, sign, cap);
    HashPrintable(c, h);
    if w.chain.count + 1 >= c.interval {
      ParseSdRendered(SigRecord(n, h, w.sigFrom, n, sign(h).value));
    } else {
      ParseSdRendered(MsgRecord(n, h));
    }
  }

  // ---------- How much a signature covers ----------

  function Max(a: nat, b: nat): nat {
    if a < b then b else a
  }

  /** How many numbers a due signature covers: the first of a chain cannot fall on its opening record. */
  function Quota(c: SignerConfig, from: nat): nat {
    if from == 1 then Max(2, c.interval) else Max(1, c.interval)
  }

  /** Fewer messages wait than a due signature would cover; behind an opening record at least it waits. */
  predicate IsWaiting(c: SignerConfig, w: WorkerState) {
    IsLive(w) ==> w.chain.count + 1 <= Quota(c, w.sigFrom) && (w.sigFrom == 1 ==> w.chain.count > 0)
  }

  lemma StaysWaiting(c: SignerConfig, s: System, h: History, ev: Event, cap: nat)
    requires ConfigOk(c) && c.keyOk && cap >= SD_MAX_LEN && EventOk(c, ev) && HistoryOk(c, s, h) && WithinRange(h)
    requires (ev.Message? ==> Succeeds(ev.sign)) && (ev.Close? ==> Succeeds(ev.sign)) && IsWaiting(c, s.worker)
    ensures IsWaiting(c, Next(c, s, ev, cap).0.worker)
  {
    hide SaveText, LoadText, SigningOk, InitHash, Fold, Link, RenderRecord, FormatRecord, SavedChain, FirstRecord,
      PrintedCert, CertText, FreshChain, IsPrintable, Follows, Append, ProcessFinal;
    var w := s.worker;
    match ev
    case Message(payload, sign) =>
      if IsLive(w) {
        LiveStaysWaiting(c, w, payload, sign, cap);
      } else {
        var w0 := if w.initialized then w else JustInitialized(c, w).(pending := None);
        FirstEmits(c, w0, payload, sign, cap);
        if !w.initialized && w.pending.Some? {
          FinalLeavesFresh(c, w0, w.pending.value, payload, sign, cap);
        }
      }
    case Close(sign) => CloseWrites(c, w, sign, cap);
    case Restart(_) =>
  }

  lemma LiveStaysWaiting(c: SignerConfig, w: WorkerState, payload: string, sign: SignCall, cap: nat)
    requires IsLive(w) && WorkerOk(c, w) && w.chain.next < TWO_64 && cap >= SD_MAX_LEN
    requires Sound(c, sign) && Succeeds(sign) && IsWaiting(c, w)
    ensures IsWaiting(c, ProcessMsg(c, w, payload, sign, cap).worker)
  {
    hide Link, InitHash, RenderRecord, FormatRecord, FreshChain, ProcessMsg;
    MessageWrites(c, w, payload, sign, cap);
  }

  // ---------- The final signature ----------

  /** A final call does nothing unless something is unsigned; then it signs one empty payload more. */
  lemma CloseWrites(c: SignerConfig, w: WorkerState, sign: SignCall, cap: nat)
    requires WorkerOk(c, w) && cap >= SD_MAX_LEN && Sound(c, sign) && (w.initialized ==> w.chain.next < TWO_64)
    ensures var s := FinalSign(c, w, sign, cap);
            var (n, h) := (w.chain.next, Link(c.prims, c.alg, w.chain.current, w.chain.next, ""));
            if !w.initialized || w.chain.count == 0 then s == ClosingStep(w, Idle, None)
            else
              match sign(h)
              case Some(sig) =>
                s == ClosingStep(w.(chain := ChainState(c.alg, h, n + 1, 0), sigFrom := n + 1),
                                 Closed(RenderRecord(SigRecord(n, h, w.sigFrom, n, sig))), Some(h))
              case None =>
                s == ClosingStep(w.(chain := ChainState(c.alg, h, n + 1, w.chain.count + 1)), ClosingFailed, None)
  {
    hide Link, InitHash, RenderRecord, FormatRecord, IsPrintable, Follows;
    if w.initialized && w.chain.count > 0 && sign(Extended(c.prims, w.chain, "").current).Some? {
      ClosingFollows(c, w.chain, w.sigFrom, "", sign, cap);
    }
  }

  // ---------- A message that finds a saved state ----------

  /** The step of a worker that opens a chain: an INIT numbered 1 with this key, and nothing signed. */
  function Opened(c: SignerConfig, payload: string, cap: nat): Step {
    var r := FirstRecord(c, payload);
    Step(WorkerState(ChainState(c.alg, r.hash, 2, 1), 1, true, false, None),
         Some(RenderRecord(r) + CertText(PrintedCert(c, cap))), None)
  }

  lemma OpensWithInit(c: SignerConfig, w: WorkerState, payload: string, sign: SignCall, cap: nat)
    requires ConfigOk(c) && c.keyOk && cap >= SD_MAX_LEN && !w.initialized && w.pending.None?
    ensures ProcessMsg(c, w, payload, sign, cap) == Opened(c, payload, cap)
  {
    hide RenderRecord, FirstRecord, CertText, PrintedCert, InitHash, Append;
    FirstEmits(c, JustInitialized(c, w), payload, sign, cap);
  }

  /**
   * A state saved under another key or another algorithm is dropped: the message opens a new chain as if
   * there had been no state, and the old chain is not signed.
   */
  lemma ForeignStateIsDropped(
    c: SignerConfig, w: WorkerState, st: Saved, payload: string, sign: SignCall, cap: nat)
    requires ConfigOk(c) && c.keyOk && cap >= SD_MAX_LEN && !w.initialized && w.pending == Some(st)
    requires st.fp != c.fp || st.alg != c.alg
    ensures ProcessMsg(c, w, payload, sign, cap) == ProcessMsg(c, w.(pending := None), payload, sign, cap)
    ensures ProcessMsg(c, w, payload, sign, cap) == Opened(c, payload, cap)
  {
    hide Opened, Append, SavedChain, Link, InitHash, FormatRecord;
    OpensWithInit(c, w.(pending := None), payload, sign, cap);
  }

  /** A state of this key is finished by one signature that continues it, unless that signature fails. */
  lemma OwnStateIsFinished(
    c: SignerConfig, w: WorkerState, st: Saved, payload: string, sign: SignCall, cap: nat)
    requires ConfigOk(c) && c.keyOk && cap >= SD_MAX_LEN && Sound(c, sign) && !w.initialized && w.pending == Some(st)
    requires st.fp == c.fp && st.alg == c.alg && st.sigFrom < TWO_64 && st.next < TWO_64
    ensures var s := ProcessMsg(c, w, payload, sign, cap);
            var h := Link(c.prims, c.alg, FirstOctets(st.hash, HashLen(c.alg)), st.next, payload);
            match sign(h)
            case Some(sig) =>
              && s.out == Some(RenderRecord(SigRecord(st.next, h, st.sigFrom, st.next, sig))) && s.signed == Some(h)
              && s.worker == WorkerState(FreshChain(c.prims, c.alg), 1, true, true, None)
            case None => s == Opened(c, payload, cap)
  {
    hide Opened, Append, Link, InitHash, FormatRecord, RenderRecord, IsPrintable, Follows, FirstOctets;
    OpensWithInit(c, w.(pending := None), payload, sign, cap);
    if sign(Extended(c.prims, SavedChain(st), payload).current).Some? {
      ClosingFollows(c, SavedChain(st), st.sigFrom, payload, sign, cap);
    }
  }

  /** Through the state file: what one key saved another one drops, and finds as if nothing were there. */
  lemma ForeignFileIsDropped(
    c: SignerConfig, was: SignerConfig, w: WorkerState, payload: string, sign: SignCall, cap: nat)
    requires ConfigOk(c) && c.keyOk && cap >= SD_MAX_LEN
    requires ConfigOk(was) && WorkerOk(was, w) && w.initialized && w.chain.count > 0 && w.chain.next < TWO_64
    requires was.fp != c.fp || was.alg != c.alg
    ensures StateText(was, w).Some?
    ensures ProcessMsg(c, Restarted(c, StateText(was, w)), payload, sign, cap) == Opened(c, payload, cap)
  {
    hide LoadText, SaveText, Opened, ProcessMsg, InitHash, AsSaved, SavedChain;
    SnapshotOk(was, w);
    var st := AsSaved(WorkerSnapshot(was, w));
    assert Matches(was, st);
    ForeignStateIsDropped(c, Restarted(c, StateText(was, w)), st, payload, sign, cap);
  }

  /**
   * A graceful restart: a worker that left nothing unsigned is followed by a new chain, any other by the
   * signature of its own chain with the next payload.
   */
  lemma RestartContinues(c: SignerConfig, w: WorkerState, payload: string, sign: SignCall, cap: nat)
    requires ConfigOk(c) && c.keyOk && cap >= SD_MAX_LEN && Sound(c, sign) && Succeeds(sign)
    requires WorkerOk(c, w) && w.initialized && w.chain.next < TWO_64
    ensures var s := ProcessMsg(c, Restarted(c, StateText(c, w)), payload, sign, cap);
            var (n, h) := (w.chain.next, Link(c.prims, c.alg, w.chain.current, w.chain.next, payload));
            if w.sigFrom == n then StateText(c, w) == None && s == Opened(c, payload, cap)
            else
              && sign(h).Some? && s.signed == Some(h)
              && s.out == Some(RenderRecord(SigRecord(n, h, w.sigFrom, n, sign(h).value)))
              && s.worker == WorkerState(FreshChain(c.prims, c.alg), 1, true, true, None)
  {
    hide LoadText, SaveText, Opened, ProcessMsg, InitHash, AsSaved, SavedChain, Link, RenderRecord, FirstOctets,
      FreshChain;
    if w.sigFrom == w.chain.next {
      OpensWithInit(c, Restarted(c, None), payload, sign, cap);
    } else {
      SnapshotOk(c, w);
      var st := AsSaved(WorkerSnapshot(c, w));
      SavedParts(c, w);
      OwnStateIsFinished(c, Restarted(c, StateText(c, w)), st, payload, sign, cap);
    }
  }

  lemma SavedParts(c: SignerConfig, w: WorkerState)
    requires WorkerOk(c, w) && w.initialized
    ensures var st := AsSaved(WorkerSnapshot(c, w));
            && st.fp == c.fp && st.alg == c.alg && st.sigFrom == w.sigFrom && st.next == w.chain.next
            && FirstOctets(st.hash, HashLen(c.alg)) == w.chain.current
    ensures w.sigFrom <= w.chain.next
  {
    hide InitHash;
  }

  // ---------- Whole lives ----------

  ghost predicate SignsAlways(ev: Event) {
    match ev case Message(_, sign) => Succeeds(sign) case Close(sign) => Succeeds(sign) case Restart(_) => true
  }

  lemma {:induction false} LifeIsWaiting(c: SignerConfig, events: seq<Event>, cap: nat)
    requires ConfigOk(c) && c.keyOk && cap >= SD_MAX_LEN && |events| < TWO_64 - 1
    requires forall k :: 0 <= k < |events| ==> EventOk(c, events[k]) && SignsAlways(events[k])
    ensures IsWaiting(c, Run(c, events, cap).0.worker)
  {
    hide Next, HistoryOk, EventOk, IsWaiting;
    if |events| == 0 {
      BootIsWaiting(c);
    } else {
      var front := events[..|events| - 1];
      LifeIsWaiting(c, front, cap);
      RunKeepsHistory(c, front, cap);
      StaysWaiting(c, Run(c, front, cap).0, HistoryOf(c, front, cap), events[|events| - 1], cap);
    }
  }

  lemma BootIsWaiting(c: SignerConfig)
    ensures IsWaiting(c, Boot(c).worker)
  {
  }

  /**
   * The schedule.  Over every life whose signatures succeed, the next message on a chain in progress is
   * signed exactly when that signature covers as many numbers as the interval says, and at least two
   * when it is the first of its chain; it then runs from just behind the last signature to the message.
   */
  lemma SignaturesAreOnSchedule(c: SignerConfig, events: seq<Event>, payload: string, sign: SignCall, cap: nat)
    requires ConfigOk(c) && c.keyOk && cap >= SD_MAX_LEN && |events| < TWO_64 - 2
    requires forall k :: 0 <= k < |events| ==> EventOk(c, events[k]) && SignsAlways(events[k])
    requires Sound(c, sign) && Succeeds(sign) && IsLive(Run(c, events, cap).0.worker)
    ensures var w := Run(c, events, cap).0.worker;
            var out := ProcessMsg(c, w, payload, sign, cap).out;
            && out.Some? && ParseSd(out.value).Parsed?
            && var r := ParseSd(out.value).record;
               && r.number == w.chain.next
               && (r.kind == SigType <==> w.chain.next + 1 - w.sigFrom == Quota(c, w.sigFrom))
               && (r.kind == SigType ==>
                    r.sigFrom == w.sigFrom && r.sigTo == r.number && r.sigTo + 1 - r.sigFrom == Quota(c, r.sigFrom))
               && (r.kind != SigType ==> r.kind == MsgType)
  {
    hide ProcessMsg, ParseSd, Run, HistoryOf, RenderRecord, Link, InitHash, FreshChain;
    LifeIsWaiting(c, events, cap);
    RunKeepsHistory(c, events, cap);
    MessageParses(c, Run(c, events, cap).0.worker, payload, sign, cap);
  }
}

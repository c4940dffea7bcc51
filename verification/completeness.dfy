/**
 * Completeness: which logs of an honest signer the verifier accepts, over its whole life, with
 * signatures that may fail, payloads the verifier may not get back, and restarts of both kinds.
 */
module Completeness {
  import opened Wrappers
  import opened Octets
  import opened Crypto
  import opened SdText
  import opened SdRecords
  import opened HashChains
  import opened StateFile
  import opened LogVerifier
  import opened Acceptance
  import opened Signer
  import opened Lifecycle
  import opened Carriage
  import LogTheorems

  // ---------- The setting ----------

  /** The signing primitive may fail, but what it returns is short enough and passes the check. */
  ghost predicate Sound(c: SignerConfig, sign: SignCall) {
    forall d :: sign(d).Some? ==> |sign(d).value| <= SIG_MAX_LEN && c.prims.check(d, sign(d).value).Valid?
  }

  ghost predicate EventOk(c: SignerConfig, ev: Event) {
    match ev
    case Message(_, sign) => Sound(c, sign)
    case Close(sign) => Sound(c, sign)
    case Restart(_) => true
  }

  ghost predicate SameKey(c: SignerConfig, v: VConfig) {
    v.prims == c.prims && v.fp == c.fp
  }

  ghost predicate SetupOk(c: SignerConfig, v: VConfig, cap: nat) {
    SameKey(c, v) && ConfigOk(c) && c.keyOk && cap >= SD_MAX_LEN
  }

  /** The length of every INIT element of this signer. */
  function InitLen(c: SignerConfig): nat {
    |RenderRecord(InitRecord(1, Zeros(HashLen(c.alg)), c.fp))|
  }

  /** The certificate an INIT line carries: none is configured, or it does not fit, or it is this one. */
  function PrintedCert(c: SignerConfig, cap: nat): Option<octets> {
    if c.cert.Some? && InitLen(c) <= cap && FormatCert(c.cert.value, cap - InitLen(c)).Some? then c.cert else None
  }

  lemma HashPrintable(c: SignerConfig, hash: octets)
    requires |hash| == HashLen(c.alg)
    ensures AlgFromHexLen(2 * |hash|).Some?
  {
    AlgRoundTrip(c.alg);
  }

  lemma InitLineLength(c: SignerConfig, h: octets)
    requires ConfigOk(c) && |h| == HashLen(c.alg)
    ensures |RenderRecord(InitRecord(1, h, c.fp))| == InitLen(c)
  {
    hide RenderBody;
    HashPrintable(c, h);
    BodyLength(InitRecord(1, h, c.fp));
    BodyLength(InitRecord(1, Zeros(HashLen(c.alg)), c.fp));
  }

  lemma WithCertPrints(c: SignerConfig, h: octets, cap: nat)
    requires ConfigOk(c) && |h| == HashLen(c.alg)
    ensures var sd := RenderRecord(InitRecord(1, h, c.fp)); WithCert(c, sd, cap) == sd + CertText(PrintedCert(c, cap))
  {
    hide RenderRecord, CertElement, InitLen;
    InitLineLength(c, h);
    var sd := RenderRecord(InitRecord(1, h, c.fp));
    assert sd + "" == sd;
  }

  // ---------- One record at the verifier ----------

  /** Nothing is unsigned. */
  predicate NoTail(vs: VState) {
    vs.phase == Processing ==> vs.lastSigned + 1 == vs.next
  }

  /** The verifier is in the middle of a segment of the signer's algorithm, or has seen nothing. */
  predicate IsCalm(c: SignerConfig, vs: VState) {
    && vs.errors == [] && vs.next > 0
    && (vs == INITIAL || (vs.phase == Processing && vs.haveAlg && vs.alg == c.alg && vs.lastSigned < vs.next))
  }

  /** A chain in progress: its head, its next number and the start of its next signature. */
  datatype Chain = Chain(head: octets, next: nat, from: nat)

  /** The verifier's head, next number and next signature start are those of the chain. */
  predicate Agrees(c: SignerConfig, vs: VState, o: Chain) {
    IsCalm(c, vs) && vs.phase == Processing && vs.head == o.head && vs.next == o.next && vs.lastSigned + 1 == o.from
  }

  /** A record that continues the chain with this payload. */
  ghost predicate Follows(c: SignerConfig, o: Chain, r: Record, payload: string) {
    var h := Link(c.prims, c.alg, o.head, o.next, payload);
    || r == MsgRecord(o.next, h)
    || (r.signature.Some? && r == SigRecord(o.next, h, o.from, o.next, r.signature.value)
        && c.prims.check(h, r.signature.value).Valid?)
  }

  function After(c: SignerConfig, o: Chain, r: Record): Chain {
    Chain(r.hash, o.next + 1, if r.kind == SigType then o.next + 1 else o.from)
  }

  /** The payload of this line and the one the verifier reads there collide in this place of the chain. */
  predicate LineCollides(c: SignerConfig, head: octets, next: nat, payload: string, line: string) {
    var g := ReadLine(line);
    && g.Readable?
    && IsCollision(c.prims, c.alg, Collision(ChainInput(head, next, payload), ChainInput(head, next, g.entry.payload)))
  }

  lemma TakesFirst(c: SignerConfig, v: VConfig, vs: VState, payload: string, n: nat)
    requires SameKey(c, v) && IsCalm(c, vs) && (v.strict ==> NoTail(vs))
    ensures var h := Link(c.prims, c.alg, InitHash(c.prims, c.alg), 1, payload);
            Agrees(c, ProcessEntry(v, vs, Entry(InitRecord(1, h, c.fp), payload), n).0, Chain(h, 2, 1))
  {
    hide Link, InitHash, HandleInit;
    var h := Link(c.prims, c.alg, InitHash(c.prims, c.alg), 1, payload);
    AlgRoundTrip(c.alg);
    InitClean(v, vs, c.alg, Entry(InitRecord(1, h, c.fp), payload), n);
  }

  lemma TakesNext(c: SignerConfig, v: VConfig, vs: VState, o: Chain, r: Record, payload: string, n: nat)
    requires SameKey(c, v) && Agrees(c, vs, o) && o.from < TWO_64 && Follows(c, o, r, payload)
    ensures Agrees(c, ProcessEntry(v, vs, Entry(r, payload), n).0, After(c, o, r))
  {
    hide Link, CheckHash;
    CheckHashClean(v, vs, Entry(r, payload), n);
  }

  /** A record whose number the verifier is not waiting for. */
  lemma WrongNumber(v: VConfig, vs: VState, e: Entry, n: nat)
    requires vs.errors == [] && vs.phase == Processing
    requires e.record.kind in {MsgType, SigType} && e.record.number != vs.next
    ensures Dead(ProcessEntry(v, vs, e, n).0)
  {
    hide CheckHash;
    LogTheorems.NumberFirst(v, vs, e, n);
    LogTheorems.SigContainsHash(v, vs, e, n);
  }

  /** A strict verifier with something unsigned lets no segment begin. */
  lemma UnsignedTailFound(c: SignerConfig, v: VConfig, vs: VState, e: Entry, n: nat)
    requires v.strict && IsCalm(c, vs) && !NoTail(vs) && IsInit(e)
    ensures Dead(ProcessEntry(v, vs, e, n).0)
  {
    hide CheckHash, InitHash;
    var s1 := CloseSegment(v, vs, n);
    assert s1.errors != [];
    CheckHashGrows(v, OpenSegment(v, s1, OrSha256(e)), e, n);
  }

  // ---------- One line at the verifier ----------

  /** Whatever the verifier makes of the line, the record is this one. */
  predicate Reads(line: string, r: Record) {
    var g := ReadLine(line);
    g.Readable? ==> g.entry.record == r
  }

  lemma DeadEntry(v: VConfig, vs: VState, line: string, n: nat)
    requires vs.errors == [] && !Stopped(vs)
    requires var g := ReadLine(line); g.Readable? ==> Dead(ProcessEntry(v, vs, g.entry, n).0)
    ensures Dead(ProcessLine(v, vs, line, n).0)
  {
    hide ReadLine, ProcessEntry;
    var g := ReadLine(line);
    if g.Readable? && !g.certOk {
      EntryGrows(v, Check(vs, false, n, CertMalformed), g.entry, n);
    }
  }

  /** A line that the verifier reads with another payload than the record was made for. */
  lemma NotCarried(v: VConfig, vs: VState, r: Record, payload: string, line: string, n: nat)
    requires vs.errors == [] && !Stopped(vs) && ProcessEntry(v, vs, Entry(r, payload), n).0.errors == []
    requires Reads(line, r) && ReadLine(line) != Readable(Entry(r, payload), true)
    ensures || Dead(ProcessLine(v, vs, line, n).0)
            || ( && ReadLine(line).Readable?
                 && LogTheorems.SwapCollides(v, vs, Entry(r, payload), ReadLine(line).entry.payload))
  {
    hide ReadLine, ProcessEntry, LogTheorems.SwapCollides;
    var g := ReadLine(line);
    if IsReadable(line) {
      LogTheorems.PayloadMatters(v, vs, Entry(r, payload), g.entry.payload, n);
    } else {
      assert vs.phase.ExpectInit? || vs.phase.Processing?;
      UnreadableIsDead(v, vs, line, n);
    }
  }

  /** The first line of a chain: taken, unless it misses its payload or a strict verifier has a tail. */
  lemma OpenTaken(c: SignerConfig, v: VConfig, vs: VState, payload: string, line: string, n: nat)
    requires SameKey(c, v) && IsCalm(c, vs) && Reads(line, FirstRecord(c, payload))
    ensures var vs' := ProcessLine(v, vs, line, n).0;
            if v.strict && !NoTail(vs) then Dead(vs')
            else if ReadLine(line) != Readable(Entry(FirstRecord(c, payload), payload), true) then
              Dead(vs') || LineCollides(c, InitHash(c.prims, c.alg), 1, payload, line)
            else Agrees(c, vs', Chain(FirstRecord(c, payload).hash, 2, 1))
  {
    hide Link, InitHash, ReadLine, ProcessEntry, ProcessLine;
    var r := FirstRecord(c, payload);
    if v.strict && !NoTail(vs) {
      if ReadLine(line).Readable? {
        UnsignedTailFound(c, v, vs, ReadLine(line).entry, n);
      }
      DeadEntry(v, vs, line, n);
    } else {
      TakesFirst(c, v, vs, payload, n);
      if ReadLine(line) == Readable(Entry(r, payload), true) {
        ReadableStep(v, vs, line, n);
      } else {
        NotCarried(v, vs, r, payload, line, n);
        FirstPoint(c, v, vs, payload);
      }
    }
  }

  function FirstRecord(c: SignerConfig, payload: string): Record {
    InitRecord(1, Link(c.prims, c.alg, InitHash(c.prims, c.alg), 1, payload), c.fp)
  }

  lemma FirstPoint(c: SignerConfig, v: VConfig, vs: VState, payload: string)
    ensures var e := Entry(FirstRecord(c, payload), payload);
            LogTheorems.HashPoint(v, vs, e) == (c.alg, InitHash(v.prims, c.alg), 1)
  {
    hide Link, InitHash;
    AlgRoundTrip(c.alg);
  }

  /** A later line of a chain: taken, unless it misses its payload or a link before it was not logged. */
  lemma NextTaken(
    c: SignerConfig, v: VConfig, vs: VState, gap: bool, o: Chain, r: Record, payload: string, line: string, n: nat)
    requires SameKey(c, v) && o.from < TWO_64 && Follows(c, o, r, payload) && Reads(line, r)
    requires IsCalm(c, vs) && vs.phase == Processing && if gap then vs.next < o.next else Agrees(c, vs, o)
    ensures var vs' := ProcessLine(v, vs, line, n).0;
            if gap then Dead(vs')
            else if ReadLine(line) != Readable(Entry(r, payload), true) then
              Dead(vs') || LineCollides(c, o.head, o.next, payload, line)
            else Agrees(c, vs', After(c, o, r))
  {
    hide Link, ReadLine, ProcessEntry, ProcessLine;
    if gap {
      if ReadLine(line).Readable? {
        WrongNumber(v, vs, ReadLine(line).entry, n);
      }
      DeadEntry(v, vs, line, n);
    } else {
      TakesNext(c, v, vs, o, r, payload, n);
      if ReadLine(line) == Readable(Entry(r, payload), true) {
        ReadableStep(v, vs, line, n);
      } else {
        NotCarried(v, vs, r, payload, line, n);
      }
    }
  }

  // ---------- What the life of a signer leaves behind ----------

  predicate IsLive(w: WorkerState) {
    w.initialized && !w.isFirst
  }

  /** The chain the next record may continue: the live worker's, or the one the state file holds. */
  function InProgress(w: WorkerState): Option<Chain> {
    if IsLive(w) then Some(Chain(w.chain.current, w.chain.next, w.sigFrom))
    else if !w.initialized && w.pending.Some? then
      var st := w.pending.value;
      Some(Chain(SavedChain(st).current, SavedChain(st).next, st.sigFrom))
    else None
  }

  /**
   * `gap`: a payload was fed to the chain in progress and no line was written for it.  `tail`: the
   * last line written is not a signature.
   */
  datatype Track = Track(gap: bool, tail: bool)

  function PayloadOf(ev: Event): string {
    match ev case Message(payload, _) => payload case _ => ""
  }

  /** The event's line, if it writes one, opens a chain; any other continues one. */
  predicate Opens(c: SignerConfig, s: System, ev: Event, cap: nat) {
    ev.Message? && !IsLive(s.worker) && !Next(c, s, ev, cap).0.worker.isFirst
  }

  function TrackAfter(c: SignerConfig, s: System, t: Track, ev: Event, cap: nat): Track {
    var (s', line) := Next(c, s, ev, cap);
    match ev
    case Message(payload, sign) =>
      Track(line.None?, if line.None? then t.tail else ProcessMsg(c, s.worker, payload, sign, cap).signed.None?)
    case Close(sign) =>
      match FinalSign(c, s.worker, sign, cap).code {
        case Idle => t
        case Closed(_) => Track(false, false)
        case ClosingFailed => t.(gap := true)
      }
    case Restart(_) => t.(gap := t.gap && s'.worker.pending.Some?)
  }

  function TrackOf(c: SignerConfig, events: seq<Event>, cap: nat): Track {
    if |events| == 0 then Track(false, false)
    else
      var n := |events| - 1;
      TrackAfter(c, Run(c, events[..n], cap).0, TrackOf(c, events[..n], cap), events[n], cap)
  }

  /** The event's line continues a chain with a gap, or opens one behind an unsigned tail in strict mode. */
  predicate Misplaced(c: SignerConfig, v: VConfig, s: System, t: Track, ev: Event, cap: nat) {
    if Opens(c, s, ev, cap) then v.strict && t.tail else t.gap
  }

  /** The verifier will not get the payload back from the event's line. */
  ghost predicate Miscarried(c: SignerConfig, s: System, ev: Event, cap: nat) {
    !Carried(if Opens(c, s, ev, cap) then PrintedCert(c, cap) else None, PayloadOf(ev))
  }

  /** The event writes a line the verifier cannot take. */
  ghost predicate Flaw(c: SignerConfig, v: VConfig, s: System, t: Track, ev: Event, cap: nat) {
    Next(c, s, ev, cap).1.Some? && (Misplaced(c, v, s, t, ev, cap) || Miscarried(c, s, ev, cap))
  }

  /** Some event of the life writes such a line. */
  ghost predicate Flawed(c: SignerConfig, v: VConfig, events: seq<Event>, cap: nat) {
    |events| > 0 &&
    var n := |events| - 1;
    || Flawed(c, v, events[..n], cap)
    || Flaw(c, v, Run(c, events[..n], cap).0, TrackOf(c, events[..n], cap), events[n], cap)
  }

  /** The chain that the event's line extends. */
  function Extends(c: SignerConfig, s: System, ev: Event, cap: nat): Chain {
    var o := InProgress(s.worker);
    if o.Some? && !Opens(c, s, ev, cap) then o.value else Chain(InitHash(c.prims, c.alg), 1, 1)
  }

  /** The event's payload is not what the verifier reads on its line, and the two are a collision of the hash. */
  ghost predicate EventCollides(c: SignerConfig, s: System, ev: Event, cap: nat) {
    var line := Next(c, s, ev, cap).1;
    var o := Extends(c, s, ev, cap);
    line.Some? && Miscarried(c, s, ev, cap) && LineCollides(c, o.head, o.next, PayloadOf(ev), line.value)
  }

  ghost predicate LifeCollides(c: SignerConfig, events: seq<Event>, cap: nat) {
    |events| > 0 &&
    var n := |events| - 1;
    LifeCollides(c, events[..n], cap) || EventCollides(c, Run(c, events[..n], cap).0, events[n], cap)
  }

  // ---------- The simulation ----------

  /** The verifier agrees with the chain in progress, or is behind it when the chain has a gap. */
  ghost predicate Sim(c: SignerConfig, w: WorkerState, t: Track, vs: VState) {
    && IsCalm(c, vs) && (NoTail(vs) <==> !t.tail)
    && var o := InProgress(w);
       o.Some? ==> vs.phase == Processing && if t.gap then vs.next < o.value.next else Agrees(c, vs, o.value)
  }

  lemma Formats(r: Record, cap: nat)
    requires IsPrintable(r) && cap >= SD_MAX_LEN
    ensures FormatRecord(r, cap) == Some(RenderRecord(r))
  {
    FormatNeverFails(r, cap);
  }

  ghost predicate EventSim(c: SignerConfig, v: VConfig, s: System, t: Track, vs: VState, ev: Event, cap: nat, n: nat) {
    var (s', line) := Next(c, s, ev, cap);
    var vs' := match line case Some(l) => ProcessLine(v, vs, l, n).0 case None => vs;
    if Flaw(c, v, s, t, ev, cap) then Dead(vs') || (!Misplaced(c, v, s, t, ev, cap) && EventCollides(c, s, ev, cap))
    else Sim(c, s'.worker, TrackAfter(c, s, t, ev, cap), vs')
  }

  /** The record that signs a chain with one more payload. */
  function ClosingRecord(c: SignerConfig, chain: ChainState, from: nat, payload: string, sig: octets): Record {
    SigRecord(chain.next, Extended(c.prims, chain, payload).current, from, chain.next, sig)
  }

  lemma ClosingFollows(c: SignerConfig, chain: ChainState, from: nat, payload: string, sign: SignCall, cap: nat)
    requires cap >= SD_MAX_LEN && Sound(c, sign) && chain.alg == c.alg && from < TWO_64 && chain.next < TWO_64
    requires sign(Extended(c.prims, chain, payload).current).Some?
    ensures var r := ClosingRecord(c, chain, from, payload, sign(Extended(c.prims, chain, payload).current).value);
            && IsPrintable(r) && Follows(c, Chain(chain.current, chain.next, from), r, payload)
            && FormatRecord(r, cap) == Some(RenderRecord(r))
  {
    hide Link, RenderRecord, FormatRecord;
    var h := Extended(c.prims, chain, payload).current;
    HashPrintable(c, h);
    Formats(ClosingRecord(c, chain, from, payload, sign(h).value), cap);
  }

  lemma FirstPrintable(c: SignerConfig, payload: string)
    requires ConfigOk(c)
    ensures IsPrintable(FirstRecord(c, payload))
  {
    hide Link, InitHash;
    HashPrintable(c, FirstRecord(c, payload).hash);
  }

  /** What the first message of a chain does. */
  lemma FirstEmits(c: SignerConfig, w: WorkerState, payload: string, sign: SignCall, cap: nat)
    requires ConfigOk(c) && cap >= SD_MAX_LEN && IsFresh(c, w)
    ensures var r := FirstRecord(c, payload);
            && Append(c, w, payload, sign, cap) ==
                 Step(w.(chain := ChainState(c.alg, r.hash, 2, 1), isFirst := false),
                      Some(RenderRecord(r) + CertText(PrintedCert(c, cap))), None)
  {
    hide Link, InitHash, RenderRecord, FormatRecord, WithCert, PrintedCert;
    var r := FirstRecord(c, payload);
    HashPrintable(c, r.hash);
    Formats(r, cap);
    WithCertPrints(c, r.hash, cap);
  }

  lemma FirstSim(
    c: SignerConfig, v: VConfig, s: System, t: Track, vs: VState, payload: string, sign: SignCall, cap: nat, n: nat)
    requires SetupOk(c, v, cap) && !IsLive(s.worker) && IsCalm(c, vs) && (NoTail(vs) <==> !t.tail)
    requires var step := ProcessMsg(c, s.worker, payload, sign, cap);
             && !step.worker.isFirst && step.worker.initialized && step.signed.None? && step.worker.sigFrom == 1
             && step.worker.chain == ChainState(c.alg, FirstRecord(c, payload).hash, 2, 1)
             && step.out == Some(RenderRecord(FirstRecord(c, payload)) + CertText(PrintedCert(c, cap)))
    ensures EventSim(c, v, s, t, vs, Message(payload, sign), cap, n)
  {
    hide Link, InitHash, RenderRecord, ProcessMsg, ProcessLine, ReadLine, Carried, PrintedCert, CertText, IsPrintable;
    var line := RenderRecord(FirstRecord(c, payload)) + CertText(PrintedCert(c, cap)) + payload;
    FirstPrintable(c, payload);
    LineCarries(FirstRecord(c, payload), PrintedCert(c, cap), payload);
    OpenTaken(c, v, vs, payload, line, n);
  }

  /** A record of a chain in progress, live or stored. */
  lemma NextSim(
    c: SignerConfig, v: VConfig, s: System, t: Track, vs: VState, r: Record, ev: Event, cap: nat, n: nat)
    requires SameKey(c, v) && Sim(c, s.worker, t, vs) && InProgress(s.worker).Some?
    requires var o := InProgress(s.worker).value;
             o.from < TWO_64 && IsPrintable(r) && Follows(c, o, r, PayloadOf(ev))
    requires !Opens(c, s, ev, cap) && Next(c, s, ev, cap).1 == Some(RenderRecord(r) + PayloadOf(ev))
    requires TrackAfter(c, s, t, ev, cap) == Track(false, r.kind != SigType)
    requires var w := Next(c, s, ev, cap).0.worker;
             InProgress(w) in {None, Some(After(c, InProgress(s.worker).value, r))}
    ensures EventSim(c, v, s, t, vs, ev, cap, n)
  {
    hide Link, RenderRecord, Next, Opens, TrackAfter, ProcessLine, ReadLine, Carried, InProgress, IsPrintable;
    var o := InProgress(s.worker).value;
    var line := RenderRecord(r) + PayloadOf(ev);
    LineCarries(r, None, PayloadOf(ev));
    assert RenderRecord(r) + CertText(None) == RenderRecord(r);
    NextTaken(c, v, vs, t.gap, o, r, PayloadOf(ev), line, n);
  }

  lemma LiveSim(
    c: SignerConfig, v: VConfig, s: System, t: Track, vs: VState, payload: string, sign: SignCall, cap: nat, n: nat)
    requires SetupOk(c, v, cap) && Sound(c, sign) && IsLive(s.worker) && s.worker.pending.None?
    requires WorkerOk(c, s.worker) && s.worker.chain.next < TWO_64 && Sim(c, s.worker, t, vs)
    ensures EventSim(c, v, s, t, vs, Message(payload, sign), cap, n)
  {
    hide Link, InitHash, RenderRecord, FormatRecord, ProcessLine, Carried, FreshChain, IsPrintable, Follows;
    var w, ev := s.worker, Message(payload, sign);
    var chain := Extended(c.prims, w.chain, payload);
    if chain.count < c.interval {
      var r := MsgRecord(w.chain.next, chain.current);
      MessageFollows(c, w.chain, w.sigFrom, payload, cap);
      NextSim(c, v, s, t, vs, r, ev, cap, n);
    } else if sign(chain.current).Some? {
      ClosingFollows(c, w.chain, w.sigFrom, payload, sign, cap);
      NextSim(c, v, s, t, vs, ClosingRecord(c, w.chain, w.sigFrom, payload, sign(chain.current).value), ev, cap, n);
    }
  }

  lemma MessageFollows(c: SignerConfig, chain: ChainState, from: nat, payload: string, cap: nat)
    requires cap >= SD_MAX_LEN && chain.alg == c.alg && chain.next < TWO_64
    ensures var r := MsgRecord(chain.next, Extended(c.prims, chain, payload).current);
            && IsPrintable(r) && Follows(c, Chain(chain.current, chain.next, from), r, payload)
            && FormatRecord(r, cap) == Some(RenderRecord(r))
  {
    hide Link, RenderRecord, FormatRecord;
    HashPrintable(c, Extended(c.prims, chain, payload).current);
    Formats(MsgRecord(chain.next, Extended(c.prims, chain, payload).current), cap);
  }

  /** A message that finds a stored chain finishes it, or drops it and opens a new one. */
  lemma PendingSim(
    c: SignerConfig, v: VConfig, s: System, t: Track, vs: VState, payload: string, sign: SignCall, cap: nat, n: nat)
    requires SetupOk(c, v, cap) && Sound(c, sign) && !s.worker.initialized && s.worker.pending.Some?
    requires var st := s.worker.pending.value; Matches(c, st) && st.sigFrom < TWO_64 && SavedChain(st).next < TWO_64
    requires Sim(c, s.worker, t, vs)
    ensures EventSim(c, v, s, t, vs, Message(payload, sign), cap, n)
  {
    hide Link, InitHash, RenderRecord, FormatRecord, ProcessLine, Carried, Append, IsPrintable, Follows, SavedChain,
      FirstRecord, PrintedCert, CertText;
    var w0 := JustInitialized(c, s.worker).(pending := None);
    var st := s.worker.pending.value;
    var chain := SavedChain(st);
    var d := Extended(c.prims, chain, payload).current;
    assert chain.alg == c.alg by { SavedAlg(st); }
    if sign(d).Some? {
      ClosingFollows(c, chain, st.sigFrom, payload, sign, cap);
      var r := ClosingRecord(c, chain, st.sigFrom, payload, sign(d).value);
      NextSim(c, v, s, t, vs, r, Message(payload, sign), cap, n);
    } else {
      FirstEmits(c, w0, payload, sign, cap);
      FirstSim(c, v, s, t, vs, payload, sign, cap, n);
    }
  }

  lemma SavedAlg(st: Saved)
    ensures SavedChain(st).alg == st.alg
  {
  }

  lemma MessageSim(
    c: SignerConfig, v: VConfig, s: System, h: History, t: Track, vs: VState, payload: string, sign: SignCall,
    cap: nat, n: nat)
    requires SetupOk(c, v, cap) && Sound(c, sign)
    requires HistoryOk(c, s, h) && WithinRange(h) && Sim(c, s.worker, t, vs)
    ensures EventSim(c, v, s, t, vs, Message(payload, sign), cap, n)
  {
    hide Append, ProcessFinal, Sound, SaveText, LoadText, SigningOk, SavedChain, InitHash, Fold, Link, EventSim,
      FirstRecord, PrintedCert, CertText, RenderRecord, FreshChain;
    var w := s.worker;
    if IsLive(w) {
      LiveSim(c, v, s, t, vs, payload, sign, cap, n);
    } else if !w.initialized && w.pending.Some? {
      PendingIsStored(c, s, h);
      PendingSim(c, v, s, t, vs, payload, sign, cap, n);
    } else {
      FirstEmits(c, if w.initialized then w else JustInitialized(c, w), payload, sign, cap);
      FirstSim(c, v, s, t, vs, payload, sign, cap, n);
    }
  }

  lemma CloseSim(
    c: SignerConfig, v: VConfig, s: System, h: History, t: Track, vs: VState, sign: SignCall, cap: nat, n: nat)
    requires SetupOk(c, v, cap) && Sound(c, sign)
    requires HistoryOk(c, s, h) && WithinRange(h) && Sim(c, s.worker, t, vs)
    ensures EventSim(c, v, s, t, vs, Close(sign), cap, n)
  {
    hide Sound, SaveText, LoadText, SigningOk, InitHash, Fold, Link, ProcessLine, RenderRecord, FormatRecord, Carried,
      IsPrintable, Follows;
    var w := s.worker;
    if w.initialized && w.chain.count > 0 {
      assert IsLive(w);
      var d := Extended(c.prims, w.chain, "").current;
      if sign(d).Some? {
        ClosingFollows(c, w.chain, w.sigFrom, "", sign, cap);
        var r := ClosingRecord(c, w.chain, w.sigFrom, "", sign(d).value);
        assert RenderRecord(r) + "" == RenderRecord(r);
        NextSim(c, v, s, t, vs, r, Close(sign), cap, n);
      }
    }
  }

  lemma RestartSim(
    c: SignerConfig, v: VConfig, s: System, h: History, t: Track, vs: VState, graceful: bool, cap: nat, n: nat)
    requires SetupOk(c, v, cap)
    requires HistoryOk(c, s, h) && WithinRange(h) && Sim(c, s.worker, t, vs)
    ensures EventSim(c, v, s, t, vs, Restart(graceful), cap, n)
  {
    hide SaveText, LoadText, SigningOk, InitHash, Fold, AsSaved, SavedChain, Carried;
    var w := s.worker;
    if w.initialized {
      assert s.disk.None?;
      if graceful && c.stateDir && w.chain.count > 0 {
        assert w.chain.next < TWO_64;
        SnapshotOk(c, w);
        SavedFields(c, w);
      }
    }
  }

  lemma EveryEventSim(
    c: SignerConfig, v: VConfig, s: System, h: History, t: Track, vs: VState, ev: Event, cap: nat, n: nat)
    requires SetupOk(c, v, cap) && EventOk(c, ev)
    requires HistoryOk(c, s, h) && WithinRange(h) && Sim(c, s.worker, t, vs)
    ensures EventSim(c, v, s, t, vs, ev, cap, n)
  {
    hide HistoryOk, EventSim, Sound, SetupOk, Sim;
    match ev
    case Message(payload, sign) => MessageSim(c, v, s, h, t, vs, payload, sign, cap, n);
    case Close(sign) => CloseSim(c, v, s, h, t, vs, sign, cap, n);
    case Restart(graceful) => RestartSim(c, v, s, h, t, vs, graceful, cap, n);
  }

  /** After every life the verifier agrees with the signer, or the life had a flaw and shows for it. */
  lemma {:induction false} RunSim(c: SignerConfig, v: VConfig, events: seq<Event>, cap: nat)
    requires SetupOk(c, v, cap) && |events| < TWO_64 - 1
    requires forall k :: 0 <= k < |events| ==> EventOk(c, events[k])
    ensures var (s, lines) := Run(c, events, cap);
            if Flawed(c, v, events, cap) then Dead(RunAll(v, lines)) || LifeCollides(c, events, cap)
            else Sim(c, s.worker, TrackOf(c, events, cap), RunAll(v, lines))
  {
    hide Next, HistoryOk, SetupOk, EventOk, ProcessLine, InitHash, Dead, Flaw, EventCollides, TrackAfter, Misplaced;
    if |events| == 0 {
      assert Sim(c, Boot(c).worker, Track(false, false), RunAll(v, []));
    } else {
      hide Sim;
      var n := |events| - 1;
      var front := events[..n];
      var (s, lines) := Run(c, front, cap);
      RunSim(c, v, front, cap);
      assert ConfigOk(c) by { SetupHasConfig(c, v, cap); }
      RunKeepsHistory(c, front, cap);
      var line := Next(c, s, events[n], cap).1;
      if line.Some? {
        RunSnoc(v, lines, line.value);
        if Dead(RunAll(v, lines)) {
          DeadStays(v, RunAll(v, lines), line.value, |lines| + 1);
        }
      }
      if !Flawed(c, v, front, cap) {
        var t := TrackOf(c, front, cap);
        EveryEventSim(c, v, s, HistoryOf(c, front, cap), t, RunAll(v, lines), events[n], cap, |lines| + 1);
      }
    }
  }

  lemma SetupHasConfig(c: SignerConfig, v: VConfig, cap: nat)
    requires SetupOk(c, v, cap)
    ensures ConfigOk(c)
  {
  }

  /** A file passes when the verifier is calm at its end, has seen a line and, if strict, no tail. */
  lemma CalmPasses(c: SignerConfig, v: VConfig, lines: seq<string>)
    requires IsCalm(c, RunAll(v, lines))
    ensures AllReadable(lines)
    ensures lines != [] ==> (NoTail(RunAll(v, lines)) <==> IsSig(Entries(lines)[|lines| - 1]))
    ensures Accepts(v, lines) <==> lines != [] && (v.strict ==> NoTail(RunAll(v, lines)))
  {
    hide RunAll, ReadLine, PrefixOk, Fold, SegPayloads, Signatures, Segments, LogAlg;
    RunExact(v, lines);
  }

  /**
   * Completeness.  For every interleaving of messages, final signatures, graceful and crash restarts
   * under one key and one algorithm, with signatures that fail at will and payloads of any form, the
   * log is accepted exactly when it is not empty, no line of it was flawed, and in strict mode its last
   * line is a signature; or some payload and what is read in its place are a collision of the hash.
   */
  lemma HonestLogsAreAccepted(c: SignerConfig, v: VConfig, events: seq<Event>, cap: nat)
    requires SetupOk(c, v, cap) && |events| < TWO_64 - 1
    requires forall k :: 0 <= k < |events| ==> EventOk(c, events[k])
    ensures var lines := Run(c, events, cap).1;
            var good := lines != [] && !Flawed(c, v, events, cap) && (v.strict ==> !TrackOf(c, events, cap).tail);
            && (good ==> Accepts(v, lines))
            && (Accepts(v, lines) ==> good || LifeCollides(c, events, cap))
            && (!Flawed(c, v, events, cap) ==>
                 && AllReadable(lines) && (Accepts(v, lines) ==> good)
                 && (lines != [] ==> (IsSig(Entries(lines)[|lines| - 1]) <==> !TrackOf(c, events, cap).tail)))
  {
    hide Run, EventOk, SetupOk, InProgress, IsCalm, NoTail, ReadLine, RunAll, Accepts;
    var (s, lines) := Run(c, events, cap);
    RunSim(c, v, events, cap);
    if !Flawed(c, v, events, cap) {
      CalmPasses(c, v, lines);
    } else if Accepts(v, lines) {
      AcceptedIsAlive(v, lines);
    }
  }

  /** Every line of the life carries its payload. */
  ghost predicate AllCarried(c: SignerConfig, events: seq<Event>, cap: nat) {
    |events| > 0 ==>
    var n := |events| - 1;
    var s := Run(c, events[..n], cap).0;
    && AllCarried(c, events[..n], cap)
    && (Next(c, s, events[n], cap).1.Some? ==> !Miscarried(c, s, events[n], cap))
  }

  lemma {:induction false} CarriedDoNotCollide(c: SignerConfig, events: seq<Event>, cap: nat)
    requires AllCarried(c, events, cap)
    ensures !LifeCollides(c, events, cap)
  {
    hide Run, Next, Miscarried;
    if |events| > 0 {
      CarriedDoNotCollide(c, events[..|events| - 1], cap);
    }
  }

  /** For such a life nothing is left to the hash: the conditions are necessary and sufficient. */
  lemma CarriedLogsAreDecided(c: SignerConfig, v: VConfig, events: seq<Event>, cap: nat)
    requires SetupOk(c, v, cap) && |events| < TWO_64 - 1
    requires forall k :: 0 <= k < |events| ==> EventOk(c, events[k])
    requires AllCarried(c, events, cap)
    ensures var lines := Run(c, events, cap).1;
            Accepts(v, lines) <==>
              lines != [] && !Flawed(c, v, events, cap) && (v.strict ==> !TrackOf(c, events, cap).tail)
  {
    hide Run, EventOk, SetupOk, Flawed, TrackOf, Accepts, AllCarried, LifeCollides;
    HonestLogsAreAccepted(c, v, events, cap);
    CarriedDoNotCollide(c, events, cap);
  }

  lemma AcceptedIsAlive(v: VConfig, lines: seq<string>)
    requires Accepts(v, lines)
    ensures !Dead(RunAll(v, lines))
  {
    hide RunAll;
    FinalizeDead(v, RunAll(v, lines));
  }

  // ---------- Where gaps come from ----------

  /** Only a signature that fails on a live chain leaves a message without a line. */
  lemma SilentMessage(c: SignerConfig, s: System, h: History, payload: string, sign: SignCall, cap: nat)
    requires ConfigOk(c) && c.keyOk && cap >= SD_MAX_LEN && Sound(c, sign) && HistoryOk(c, s, h) && WithinRange(h)
    ensures var w := s.worker;
            Next(c, s, Message(payload, sign), cap).1.None? <==>
              && IsLive(w) && w.chain.count + 1 >= c.interval
              && sign(Extended(c.prims, w.chain, payload).current).None?
  {
    hide SaveText, LoadText, SigningOk, InitHash, Fold, Link, RenderRecord, FormatRecord, SavedChain, FirstRecord,
      PrintedCert, CertText, FreshChain, IsPrintable, Follows, Append, ProcessFinal;
    var w := s.worker;
    if IsLive(w) {
      SilentLive(c, w, payload, sign, cap);
    } else {
      FirstEmits(c, if w.initialized then w else JustInitialized(c, w).(pending := None), payload, sign, cap);
      if !w.initialized && w.pending.Some? {
        FinalLeavesFresh(c, JustInitialized(c, w).(pending := None), w.pending.value, payload, sign, cap);
      }
    }
  }

  lemma SilentLive(c: SignerConfig, w: WorkerState, payload: string, sign: SignCall, cap: nat)
    requires cap >= SD_MAX_LEN && Sound(c, sign) && IsLive(w) && WorkerOk(c, w) && w.chain.next < TWO_64
    ensures ProcessMsg(c, w, payload, sign, cap).out.None? <==>
              && w.chain.count + 1 >= c.interval
              && sign(Extended(c.prims, w.chain, payload).current).None?
  {
    hide Link, InitHash, RenderRecord, FormatRecord, FreshChain, IsPrintable, Follows;
    if w.chain.count + 1 < c.interval {
      MessageFollows(c, w.chain, w.sigFrom, payload, cap);
    } else if sign(Extended(c.prims, w.chain, payload).current).Some? {
      ClosingFollows(c, w.chain, w.sigFrom, payload, sign, cap);
    }
  }

  /**
   * A chain is left with a gap exactly when its signature fails, in a message call or in a final one;
   * a gap stays through idle closings and through restarts that resume the chain, and nothing else.
   * A signature that fails while finishing a stored chain leaves none: that chain is given up.
   */
  lemma GapsExactly(c: SignerConfig, s: System, h: History, t: Track, ev: Event, cap: nat)
    requires ConfigOk(c) && c.keyOk && cap >= SD_MAX_LEN && EventOk(c, ev) && HistoryOk(c, s, h) && WithinRange(h)
    ensures var w := s.worker;
            TrackAfter(c, s, t, ev, cap).gap <==>
              match ev
              case Message(payload, sign) =>
                && IsLive(w) && w.chain.count + 1 >= c.interval
                && sign(Extended(c.prims, w.chain, payload).current).None?
              case Close(sign) =>
                if IsLive(w) && w.chain.count > 0 then sign(Extended(c.prims, w.chain, "").current).None? else t.gap
              case Restart(_) => t.gap && Next(c, s, ev, cap).0.worker.pending.Some?
  {
    hide SaveText, LoadText, SigningOk, InitHash, Fold, Link, RenderRecord, FormatRecord, IsPrintable, Follows,
      ProcessMsg;
    var w := s.worker;
    match ev
    case Message(payload, sign) => SilentMessage(c, s, h, payload, sign, cap);
    case Close(sign) =>
      if IsLive(w) && w.chain.count > 0 && sign(Extended(c.prims, w.chain, "").current).Some? {
        ClosingFollows(c, w.chain, w.sigFrom, "", sign, cap);
      }
    case Restart(_) =>
  }

  /**
   * A failed signature is not rolled back, whether a message call, a final one or a resumed chain meets
   * it: the next line written on its chain, with or without a restart between, spoils the log.
   */
  lemma FailedSignatureIsFatal(c: SignerConfig, v: VConfig, events: seq<Event>, next: Event, cap: nat)
    requires SetupOk(c, v, cap) && |events| + 1 < TWO_64 - 1
    requires forall k :: 0 <= k < |events| ==> EventOk(c, events[k])
    requires EventOk(c, next) && AllCarried(c, events + [next], cap)
    requires var s := Run(c, events, cap).0;
             TrackOf(c, events, cap).gap && !Opens(c, s, next, cap) && Next(c, s, next, cap).1.Some?
    ensures !Accepts(v, Run(c, events + [next], cap).1)
  {
    hide EventOk, SetupOk, AllCarried, Accepts, Next, Opens, TrackOf;
    var all := events + [next];
    assert all[..|all| - 1] == events;
    assert forall k :: 0 <= k < |all| ==> EventOk(c, all[k]);
    CarriedLogsAreDecided(c, v, all, cap);
  }
}

/** Tamper evidence: what an accepted log says about what the signer did. */
module Evidence {
  import opened Octets
  import opened Crypto
  import opened LogVerifier
  import opened Acceptance
  import opened Signer
  import opened Lifecycle
  import opened SdHeader

  /** The signature `g` is over exactly these payloads, as the signer was fed them. */
  predicate Vouches(h: History, g: Signing, payloads: seq<string>) {
    g in h.signings && g.start <= g.end <= |h.fed| && h.fed[g.start..g.end] == payloads
  }

  /** Walking back from the digest of signature `g` finds two inputs with one digest. */
  predicate Breaks(c: SignerConfig, h: History, g: Signing, payloads: seq<string>) {
    && g in h.signings && g.start <= g.end <= |h.fed|
    && var fed := h.fed[g.start..g.end];
       && fed != payloads && Fold(c.prims, c.alg, payloads) == Fold(c.prims, c.alg, fed)
       && IsCollision(c.prims, c.alg, FindCollision(c.prims, c.alg, payloads, fed))
  }

  /** The key accepts a signature over a digest the signer never signed. */
  ghost predicate IsForgery(c: SignerConfig, h: History, digest: octets, signature: octets) {
    c.prims.check(digest, signature).Valid? && forall g :: g in h.signings ==> g.digest != digest
  }

  /** What follows when the digest of a good SIG line is one the signer signed. */
  lemma SignedDigest(c: SignerConfig, h: History, g: Signing, alg: HashAlg, payloads: seq<string>)
    requires g in h.signings && SigningOk(c, h, g) && g.digest == Fold(c.prims, alg, payloads)
    ensures alg == c.alg && (Vouches(h, g, payloads) || Breaks(c, h, g, payloads))
  {
    hide Fold, IsCollision;
    var fed := h.fed[g.start..g.end];
    AlgRoundTrip(alg);
    AlgRoundTrip(c.alg);
    assert |g.digest| == HashLen(alg) && |g.digest| == HashLen(c.alg);
    ChainBinding(c.prims, c.alg, payloads, fed);
  }

  /**
   * Tamper evidence, for every life of the signer and every log: if the log is accepted, then at
   * each of its SIG lines the payloads from the start of the segment to that line are exactly a
   * run of payloads the signer was fed and signed as one chain; or the log and the history together
   * give a collision of the hash, or a signature the key accepts over a digest never signed.
   */
  lemma AcceptedLogIsEvidence(
    c: SignerConfig, events: seq<Event>, cap: nat, v: VConfig, lines: seq<string>, i: nat)
    requires |events| < TWO_64 - 1 && ConfigOk(c) && v.prims == c.prims
    requires Accepts(v, lines) && AllReadable(lines) && i < |lines| && IsSig(Entries(lines)[i])
    ensures var (h, es) := (HistoryOf(c, events, cap), Entries(lines));
            var payloads := SegPayloads(es, i);
            var r := es[i].record;
            && r.hash == Fold(c.prims, LogAlg(es), payloads) && r.signature.Some?
            && ( || (LogAlg(es) == c.alg && exists g :: Vouches(h, g, payloads))
                 || (LogAlg(es) == c.alg && exists g :: Breaks(c, h, g, payloads))
                 || IsForgery(c, h, r.hash, r.signature.value))
  {
    hide HistoryOf, Run, ReadLine, Accepts, Fold, SegPayloads, Vouches, Breaks, SigningOk, LogAlg;
    AcceptanceIsLogOk(v, lines);
    RunKeepsHistory(c, events, cap);
    var (h, es) := (HistoryOf(c, events, cap), Entries(lines));
    var r := es[i].record;
    assert LineOk(v, LogAlg(es), es, i);
    if exists g :: g in h.signings && g.digest == r.hash {
      var g :| g in h.signings && g.digest == r.hash;
      SignedDigest(c, h, g, LogAlg(es), SegPayloads(es, i));
    }
  }

  // ---------- The header fields ----------

  /** What the plugin had in hand for one message: the header fields, the client's section and the text. */
  datatype Origin = Origin(header: Header, section: string, msg: string)

  function HashedText(o: Origin): string {
    Payload(RenderHeader(o.header), o.section, o.msg)
  }

  /** Every message was hashed as the plugin assembles it. */
  predicate AreAssembled(events: seq<Event>, from: seq<Origin>) {
    && |from| == |events|
    && forall k :: 0 <= k < |events| && events[k].Message? ==> events[k].payload == HashedText(from[k])
  }

  /**
   * The text is that of some message of the life, and in whatever way it is taken apart into header,
   * section and message, the six header fields and what follows them are those of that message.
   */
  ghost predicate ShowsMessage(events: seq<Event>, from: seq<Origin>, text: string)
    requires |from| == |events|
  {
    exists k :: 0 <= k < |events| && events[k].Message? && ShowsOrigin(from[k], text)
  }

  ghost predicate ShowsOrigin(o: Origin, text: string) {
    text == HashedText(o) && forall h, section, msg :: IsTakenApart(text, h, section, msg) ==>
      h == o.header && CleanClient(section) + msg == CleanClient(o.section) + o.msg
  }

  predicate IsTakenApart(text: string, h: Header, section: string, msg: string) {
    text == Payload(RenderHeader(h), section, msg)
  }

  lemma OriginIsShown(o: Origin)
    ensures ShowsOrigin(o, HashedText(o))
  {
    hide Payload, RenderHeader, CleanClient;
    forall h, section, msg | IsTakenApart(HashedText(o), h, section, msg)
      ensures h == o.header && CleanClient(section) + msg == CleanClient(o.section) + o.msg
    {
      PayloadDeterminesHeader(h, section, msg, o.header, o.section, o.msg);
    }
  }

  /** What a chain is fed is a message's payload, or the empty payload of a final signature. */
  lemma {:induction false} FedFromEvents(c: SignerConfig, events: seq<Event>, cap: nat, x: string)
    requires x in HistoryOf(c, events, cap).fed && x != ""
    ensures exists k :: 0 <= k < |events| && events[k].Message? && events[k].payload == x
  {
    hide Run, ProcessMsg, FinalSign, StateText;
    var n := |events| - 1;
    var front := events[..n];
    if x in HistoryOf(c, front, cap).fed {
      FedFromEvents(c, front, cap, x);
      var k :| 0 <= k < |front| && front[k].Message? && front[k].payload == x;
      assert events[k] == front[k];
    } else {
      assert events[n].Message? && events[n].payload == x;
    }
  }

  lemma VouchedLine(h: History, g: Signing, es: seq<Entry>, i: nat, j: nat)
    requires i < |es| && SegStart(es, i) <= j <= i && Vouches(h, g, SegPayloads(es, i))
    ensures es[j].payload in h.fed
  {
    hide SegStart;
    var start := SegStart(es, i);
    assert SegPayloads(es, i)[j - start] == es[start..i + 1][j - start].payload == es[j].payload;
    assert h.fed[g.start..g.end][j - start] == h.fed[g.start + (j - start)];
  }

  /**
   * Tamper evidence for the header: in an accepted log every line up to a SIG of its segment is either
   * the empty payload of a final signature, or shows a message the signer was given, with the six header
   * fields it was given with; or a collision or a forgery is exhibited.
   */
  lemma AcceptedHeadersAreSigned(
    c: SignerConfig, events: seq<Event>, from: seq<Origin>, cap: nat, v: VConfig, lines: seq<string>, i: nat, j: nat)
    requires |events| < TWO_64 - 1 && ConfigOk(c) && v.prims == c.prims && AreAssembled(events, from)
    requires Accepts(v, lines) && AllReadable(lines) && i < |lines| && IsSig(Entries(lines)[i])
    requires SegStart(Entries(lines), i) <= j <= i
    ensures var (h, es) := (HistoryOf(c, events, cap), Entries(lines));
            || es[j].payload == "" || ShowsMessage(events, from, es[j].payload)
            || (exists g :: Breaks(c, h, g, SegPayloads(es, i)))
            || (es[i].record.signature.Some? && IsForgery(c, h, es[i].record.hash, es[i].record.signature.value))
  {
    hide HistoryOf, Run, ReadLine, Accepts, Fold, SegPayloads, Vouches, Breaks, LogAlg, SegStart, IsForgery,
      ShowsOrigin, HashedText;
    AcceptedLogIsEvidence(c, events, cap, v, lines, i);
    var (h, es) := (HistoryOf(c, events, cap), Entries(lines));
    var x := es[j].payload;
    if exists g :: Vouches(h, g, SegPayloads(es, i)) {
      var g :| Vouches(h, g, SegPayloads(es, i));
      VouchedLine(h, g, es, i, j);
      if x != "" {
        FedFromEvents(c, events, cap, x);
        var k :| 0 <= k < |events| && events[k].Message? && events[k].payload == x;
        OriginIsShown(from[k]);
      }
    }
  }
}

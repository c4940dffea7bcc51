/**
 * What acceptance means: a declarative description of good logs, and its equivalence with the
 * verifier's verdict.
 */
module Acceptance {
  import opened Wrappers
  import opened Crypto
  import opened SdRecords
  import opened LogVerifier

  predicate IsInit(e: Entry) {
    e.record.kind.InitType?
  }

  predicate IsSig(e: Entry) {
    e.record.kind.SigType?
  }

  /** The line that opens the segment of line `i`: the nearest INIT at or before it. */
  function SegStart(es: seq<Entry>, i: nat): (j: nat)
    requires i < |es|
    ensures j <= i
  {
    if i == 0 || IsInit(es[i]) then i else SegStart(es, i - 1)
  }

  lemma {:induction false} SegStartIsNearest(es: seq<Entry>, i: nat)
    requires i < |es|
    ensures var j := SegStart(es, i);
            && (j == 0 || IsInit(es[j]))
            && forall k :: j < k <= i ==> !IsInit(es[k])
  {
    if i > 0 && !IsInit(es[i]) {
      SegStartIsNearest(es, i - 1);
    }
  }

  function NumberAt(es: seq<Entry>, i: nat): (n: nat)
    requires i < |es|
    ensures n > 0
  {
    i - SegStart(es, i) + 1
  }

  function Payloads(es: seq<Entry>): (ps: seq<string>)
    ensures |ps| == |es| && forall k :: 0 <= k < |es| ==> ps[k] == es[k].payload
  {
    seq(|es|, k requires 0 <= k < |es| => es[k].payload)
  }

  /** The payloads from the start of its segment up to line `i`. */
  function SegPayloads(es: seq<Entry>, i: nat): (ps: seq<string>)
    requires i < |es|
    ensures |ps| == NumberAt(es, i)
  {
    Payloads(es[SegStart(es, i)..i + 1])
  }

  /** The number of the last SIG line before line `i` in its segment; zero when there is none. */
  function SignedBefore(es: seq<Entry>, i: nat): (n: nat)
    requires i < |es|
    ensures n < NumberAt(es, i)
  {
    if SegStart(es, i) == i then 0
    else if IsSig(es[i - 1]) then NumberAt(es, i - 1)
    else SignedBefore(es, i - 1)
  }

  /** Line `i` carries its number in the segment, the chain head so far, and what its type requires. */
  predicate LineOk(c: VConfig, alg: HashAlg, es: seq<Entry>, i: nat)
    requires i < |es|
  {
    var r := es[i].record;
    && r.number == NumberAt(es, i)
    && r.hash == Fold(c.prims, alg, SegPayloads(es, i))
    && KindOk(c, r, SignedBefore(es, i))
  }

  predicate KindOk(c: VConfig, r: Record, signed: nat) {
    match r.kind
    case InitType => r.fp == Some(c.fp)
    case ContinueType => r.fp.Some? ==> r.fp.value == c.fp
    case MsgType => true
    case SigType =>
      && r.signature.Some? && c.prims.check(r.hash, r.signature.value).Valid?
      && r.sigFrom == Succ64(signed) && r.sigTo == r.number
    case OtherType(_) => false
  }

  /** In strict mode a segment may end only with a signature. */
  predicate EndsOk(c: VConfig, es: seq<Entry>) {
    c.strict ==> forall i :: 0 < i < |es| && IsInit(es[i]) ==> IsSig(es[i - 1])
  }

  predicate PrefixOk(c: VConfig, alg: HashAlg, es: seq<Entry>) {
    && (es != [] ==> IsInit(es[0]))
    && (forall i :: 0 <= i < |es| ==> LineOk(c, alg, es, i))
    && EndsOk(c, es)
  }

  /** The algorithm of a log: the one its first hash has the width of. */
  function LogAlg(es: seq<Entry>): HashAlg {
    if es == [] then Sha256
    else match AlgFromHexLen(2 * |es[0].record.hash|) case Some(a) => a case None => Sha256
  }

  /**
   * A good log: it is not empty, it opens with INIT, every line is good under one algorithm, and in
   * strict mode every segment, the last included, ends with a signature.
   */
  predicate LogOk(c: VConfig, es: seq<Entry>) {
    && es != []
    && PrefixOk(c, LogAlg(es), es)
    && (c.strict ==> IsSig(es[|es| - 1]))
  }

  predicate IsReadable(line: string) {
    var r := ReadLine(line);
    r.Readable? && r.certOk
  }

  predicate AllReadable(lines: seq<string>) {
    forall i :: 0 <= i < |lines| ==> IsReadable(lines[i])
  }

  function Entries(lines: seq<string>): (es: seq<Entry>)
    requires AllReadable(lines)
    ensures |es| == |lines| && forall i :: 0 <= i < |es| ==> es[i] == ReadLine(lines[i]).entry
  {
    seq(|lines|, i requires 0 <= i < |lines| => ReadLine(lines[i]).entry)
  }

  // ---------- The state after a good log ----------

  function Signatures(es: seq<Entry>): nat {
    if es == [] then 0 else Signatures(es[..|es| - 1]) + if IsSig(es[|es| - 1]) then 1 else 0
  }

  function Segments(es: seq<Entry>): nat {
    if es == [] then 0
    else Segments(es[..|es| - 1]) + if es[|es| - 1].record.kind in {InitType, ContinueType} then 1 else 0
  }

  function SignedUpTo(es: seq<Entry>): nat
    requires es != []
  {
    var i := |es| - 1;
    if IsSig(es[i]) then NumberAt(es, i) else SignedBefore(es, i)
  }

  function CleanState(c: VConfig, alg: HashAlg, es: seq<Entry>): VState {
    if es == [] then INITIAL
    else
      var i := |es| - 1;
      VState(Processing, alg, true, Fold(c.prims, alg, SegPayloads(es, i)), NumberAt(es, i) + 1,
             SignedUpTo(es), |es|, Signatures(es), Segments(es), [])
  }

  // ---------- Prefixes ----------

  lemma {:induction false} PrefixAgrees(es: seq<Entry>, tail: seq<Entry>, i: nat)
    requires i < |es|
    ensures SegStart(es + tail, i) == SegStart(es, i)
    ensures SignedBefore(es + tail, i) == SignedBefore(es, i)
    ensures SegPayloads(es + tail, i) == SegPayloads(es, i)
  {
    if i > 0 {
      PrefixAgrees(es, tail, i - 1);
    }
    var j := SegStart(es, i);
    assert (es + tail)[j..i + 1] == es[j..i + 1];
  }

  lemma LineAgrees(c: VConfig, alg: HashAlg, es: seq<Entry>, tail: seq<Entry>, i: nat)
    requires i < |es|
    ensures LineOk(c, alg, es + tail, i) == LineOk(c, alg, es, i)
  {
    hide KindOk, Fold;
    PrefixAgrees(es, tail, i);
  }

  lemma PrefixStep(c: VConfig, alg: HashAlg, es: seq<Entry>, e: Entry)
    requires es != []
    ensures PrefixOk(c, alg, es + [e]) <==>
              && PrefixOk(c, alg, es)
              && LineOk(c, alg, es + [e], |es|)
              && (c.strict && IsInit(e) ==> IsSig(es[|es| - 1]))
  {
    hide LineOk, IsInit, IsSig;
    var es' := es + [e];
    forall i | 0 <= i < |es| ensures LineOk(c, alg, es', i) == LineOk(c, alg, es, i) {
      LineAgrees(c, alg, es, [e], i);
    }
    assert forall i :: 0 <= i < |es| ==> es'[i] == es[i];
    assert es'[|es|] == e;
  }

  /** The next line of a segment follows from the last one; an INIT starts over. */
  lemma NextLine(es: seq<Entry>, e: Entry)
    requires es != []
    ensures var (i, es') := (|es|, es + [e]);
            if IsInit(e) then
              NumberAt(es', i) == 1 && SegPayloads(es', i) == [e.payload] && SignedBefore(es', i) == 0
            else
              && NumberAt(es', i) == NumberAt(es, i - 1) + 1
              && SegPayloads(es', i) == SegPayloads(es, i - 1) + [e.payload]
              && SignedBefore(es', i) == SignedUpTo(es)
  {
    hide SegStart, SignedBefore, SegPayloads;
    if IsInit(e) {
      NextInit(es, e);
    } else {
      NextPayloads(es, e);
      NextSigned(es, e);
    }
  }

  lemma NextInit(es: seq<Entry>, e: Entry)
    requires IsInit(e)
    ensures var (i, es') := (|es|, es + [e]);
            SegStart(es', i) == i && SegPayloads(es', i) == [e.payload] && SignedBefore(es', i) == 0
  {
    hide IsInit;
    var (i, es') := (|es|, es + [e]);
    assert es'[i] == e;
    assert SegStart(es', i) == i;
    assert es'[i..i + 1] == [e];
  }

  lemma NextSigned(es: seq<Entry>, e: Entry)
    requires es != [] && !IsInit(e)
    ensures SignedBefore(es + [e], |es|) == SignedUpTo(es)
  {
    hide SegPayloads, IsInit, IsSig;
    var (i, es') := (|es|, es + [e]);
    SegStartNext(es, e);
    PrefixAgrees(es, [e], i - 1);
    assert es'[i - 1] == es[i - 1];
  }

  lemma SegStartNext(es: seq<Entry>, e: Entry)
    requires es != [] && !IsInit(e)
    ensures SegStart(es + [e], |es|) == SegStart(es, |es| - 1)
  {
    PrefixAgrees(es, [e], |es| - 1);
    assert (es + [e])[|es|] == e;
  }

  lemma NextPayloads(es: seq<Entry>, e: Entry)
    requires es != [] && !IsInit(e)
    ensures SegStart(es + [e], |es|) == SegStart(es, |es| - 1)
    ensures SegPayloads(es + [e], |es|) == SegPayloads(es, |es| - 1) + [e.payload]
  {
    hide SegStart, IsInit, Payloads;
    SegStartNext(es, e);
    var j := SegStart(es, |es| - 1);
    SliceSnoc(es, e, j);
    PayloadsSnoc(es[j..|es|], e);
  }

  lemma SliceSnoc(es: seq<Entry>, e: Entry, j: nat)
    requires j <= |es|
    ensures (es + [e])[j..|es| + 1] == es[j..|es|] + [e]
  {
  }

  lemma PayloadsSnoc(es: seq<Entry>, e: Entry)
    ensures Payloads(es + [e]) == Payloads(es) + [e.payload]
  {
  }

  lemma CountsStep(es: seq<Entry>, e: Entry)
    ensures Signatures(es + [e]) == Signatures(es) + if IsSig(e) then 1 else 0
    ensures Segments(es + [e]) == Segments(es) + if e.record.kind in {InitType, ContinueType} then 1 else 0
  {
    assert (es + [e])[..|es|] == es;
  }

  // ---------- Errors stay ----------

  lemma CheckHashGrows(c: VConfig, s: VState, e: Entry, line: nat)
    ensures s.errors <= CheckHash(c, s, e, line).0.errors
  {
    hide Link;
  }

  lemma SigGrows(c: VConfig, s: VState, e: Entry, line: nat)
    ensures s.errors <= HandleSig(c, s, e, line).0.errors
  {
    hide CheckHash;
    CheckHashGrows(c, s, e, line);
  }

  lemma InitGrows(c: VConfig, s: VState, e: Entry, line: nat)
    ensures s.errors <= HandleInit(c, s, e, line).0.errors
  {
    hide CheckHash, InitHash;
    CheckHashGrows(c, OpenSegment(c, CloseSegment(c, s, line), OrSha256(e)), e, line);
  }

  function OrSha256(e: Entry): HashAlg {
    match AlgFromHexLen(2 * |e.record.hash|) case Some(a) => a case None => Sha256
  }

  lemma EntryGrows(c: VConfig, s: VState, e: Entry, line: nat)
    ensures s.errors <= ProcessEntry(c, s, e, line).0.errors
  {
    hide CheckHash, HandleInit, HandleSig;
    CheckHashGrows(c, s, e, line);
    CheckHashGrows(c, s.(segments := s.segments + 1), e, line);
    SigGrows(c, s, e, line);
    InitGrows(c, s, e, line);
  }

  /** An error has been recorded, or a write out of bounds made. */
  predicate Dead(s: VState) {
    s.errors != [] || s.phase == Lost
  }

  /** An error, once recorded, is never forgotten, changed or moved. */
  lemma ErrorsGrow(c: VConfig, s: VState, text: string, line: nat)
    ensures s.errors <= ProcessLine(c, s, text, line).0.errors
  {
    hide ReadLine, ProcessEntry;
    match ReadLine(text)
    case Unreadable =>
    case Overrun =>
    case Readable(e, certOk) => EntryGrows(c, Check(s, certOk, line, CertMalformed), e, line);
  }

  lemma DeadStays(c: VConfig, s: VState, text: string, line: nat)
    requires Dead(s)
    ensures Dead(ProcessLine(c, s, text, line).0)
  {
    hide ReadLine, ProcessEntry;
    ErrorsGrow(c, s, text, line);
  }

  // ---------- One clean step ----------

  lemma CheckHashClean(c: VConfig, s: VState, e: Entry, line: nat)
    requires s.errors == []
    ensures var (s', ok) := CheckHash(c, s, e, line);
            var h := Link(c.prims, s.alg, s.head, s.next, e.payload);
            && (s'.errors == [] <==> e.record.number == s.next && e.record.hash == h)
            && (s'.errors == [] ==> ok && s' == s.(head := h, next := s.next + 1, messages := s.messages + 1))
  {
    hide Link;
  }

  lemma FoldStep(p: Primitives, alg: HashAlg, ps: seq<string>, x: string)
    ensures Fold(p, alg, ps + [x]) == Link(p, alg, Fold(p, alg, ps), |ps| + 1, x)
  {
    hide Link;
    assert (ps + [x])[..|ps|] == ps;
  }

  lemma FoldOne(p: Primitives, alg: HashAlg, x: string)
    ensures Fold(p, alg, [x]) == Link(p, alg, InitHash(p, alg), 1, x)
  {
    hide Link, InitHash;
    FoldStep(p, alg, [], x);
    assert [] + [x] == [x];
  }

  ghost predicate StepIsExact(c: VConfig, alg: HashAlg, es: seq<Entry>, e: Entry, line: nat) {
    var s' := ProcessEntry(c, CleanState(c, alg, es), e, line).0;
    && (s'.errors == [] <==>
         && LineOk(c, alg, es + [e], |es|)
         && (es != [] && c.strict && IsInit(e) ==> IsSig(es[|es| - 1])))
    && (s'.errors == [] ==> s' == CleanState(c, alg, es + [e]))
  }

  lemma StepInside(c: VConfig, alg: HashAlg, es: seq<Entry>, e: Entry, line: nat)
    requires es != [] && !IsInit(e)
    ensures StepIsExact(c, alg, es, e, line)
  {
    hide CheckHash, Link, Fold, SegPayloads, SignedBefore, Signatures, Segments;
    var s := CleanState(c, alg, es);
    NextLine(es, e);
    CountsStep(es, e);
    FoldStep(c.prims, alg, SegPayloads(es, |es| - 1), e.payload);
    CheckHashClean(c, s, e, line);
    CheckHashClean(c, s.(segments := s.segments + 1), e, line);
    assert (es + [e])[|es|] == e;
  }

  /** The width test of an INIT line admits exactly the hashes of the algorithm in force. */
  lemma WidthOk(c: VConfig, alg: HashAlg, e: Entry)
    ensures AlgFromHexLen(2 * |e.record.hash|) == Some(alg) <==> |e.record.hash| == HashLen(alg)
  {
    AlgRoundTrip(alg);
  }

  lemma InitClean(c: VConfig, s: VState, alg: HashAlg, e: Entry, line: nat)
    requires s.errors == [] && |InitHash(c.prims, alg)| == HashLen(alg)
    requires if s.haveAlg then s.alg == alg else alg == OrSha256(e)
    ensures var s' := HandleInit(c, s, e, line).0;
            var h := Link(c.prims, alg, InitHash(c.prims, alg), 1, e.payload);
            && (s'.errors == [] <==>
                 && e.record.fp == Some(c.fp) && e.record.number == 1 && e.record.hash == h
                 && CloseSegment(c, s, line).errors == [])
            && (s'.errors == [] ==>
                 s' == OpenSegment(c, CloseSegment(c, s, line), alg).(head := h, next := 2, messages := s.messages + 1))
  {
    hide CheckHash, Link, InitHash, AlgFromHexLen, HashLen;
    var s1 := CloseSegment(c, s, line);
    WidthOk(c, alg, e);
    CloseGrows(c, s, line);
    if s1.errors == [] {
      CheckHashClean(c, OpenSegment(c, s1, alg), e, line);
    }
    CheckHashGrows(c, OpenSegment(c, s1, alg), e, line);
  }

  lemma StepInit(c: VConfig, alg: HashAlg, es: seq<Entry>, e: Entry, line: nat)
    requires es != [] && IsInit(e)
    ensures StepIsExact(c, alg, es, e, line)
  {
    hide HandleInit, Link, Fold, InitHash, SegPayloads, Signatures, Segments, CloseSegment,
      NumberAt, SegStart, SignedBefore, SignedUpTo;
    var s := CleanState(c, alg, es);
    NextLine(es, e);
    CountsStep(es, e);
    FoldOne(c.prims, alg, e.payload);
    InitClean(c, s, alg, e, line);
    assert (es + [e])[|es|] == e;
    CloseClean(c, alg, es, line);
    assert SignedUpTo(es + [e]) == 0 by { SignedUpToInit(es, e); }
  }

  lemma SignedUpToInit(es: seq<Entry>, e: Entry)
    requires IsInit(e)
    ensures SignedUpTo(es + [e]) == 0
  {
    assert (es + [e])[|es|] == e;
  }

  lemma CloseGrows(c: VConfig, s: VState, line: nat)
    ensures s.errors <= CloseSegment(c, s, line).errors
  {
  }

  lemma CloseClean(c: VConfig, alg: HashAlg, es: seq<Entry>, line: nat)
    requires es != []
    ensures var s := CleanState(c, alg, es);
            var s' := CloseSegment(c, s, line);
            && (s'.errors == [] <==> (c.strict ==> IsSig(es[|es| - 1])))
            && (s'.errors == [] ==> s' == s.(lastSigned := 0))
  {
    hide Fold, SegPayloads, Signatures, Segments;
  }

  lemma StepFirst(c: VConfig, e: Entry, line: nat)
    ensures var alg := LogAlg([e]);
            var s' := ProcessEntry(c, INITIAL, e, line).0;
            && (s'.errors == [] <==> PrefixOk(c, alg, [e]))
            && (s'.errors == [] ==> s' == CleanState(c, alg, [e]))
  {
    hide HandleInit, Link, InitHash, Fold;
    var alg := LogAlg([e]);
    FoldOne(c.prims, alg, e.payload);
    if IsInit(e) {
      InitClean(c, INITIAL, alg, e, line);
    }
    CountsStep([], e);
    assert [] + [e] == [e] && [e][0..1] == [e];
    assert SegPayloads([e], 0) == [e.payload];
    var h := Link(c.prims, alg, InitHash(c.prims, alg), 1, e.payload);
    assert LineOk(c, alg, [e], 0) <==> e.record.number == 1 && e.record.hash == h && KindOk(c, e.record, 0);
    assert PrefixOk(c, alg, [e]) <==> IsInit(e) && LineOk(c, alg, [e], 0) by {
      if IsInit(e) && LineOk(c, alg, [e], 0) {
        assert forall i :: 0 <= i < |[e]| ==> LineOk(c, alg, [e], i);
      }
    }
  }

  // ---------- The verdict ----------

  /** Every line read so far was good, and then the state is the one the log determines. */
  ghost predicate RunIsExact(c: VConfig, lines: seq<string>) {
    var s := RunAll(c, lines);
    if !Dead(s) then
      && AllReadable(lines)
      && PrefixOk(c, LogAlg(Entries(lines)), Entries(lines))
      && s == CleanState(c, LogAlg(Entries(lines)), Entries(lines))
    else
      AllReadable(lines) ==> !PrefixOk(c, LogAlg(Entries(lines)), Entries(lines))
  }

  lemma EntriesSnoc(front: seq<string>, text: string)
    requires AllReadable(front + [text])
    ensures IsReadable(text) && AllReadable(front) && Entries(front + [text]) == Entries(front) + [ReadLine(text).entry]
    ensures front != [] ==> LogAlg(Entries(front + [text])) == LogAlg(Entries(front))
  {
    hide ReadLine, LogAlg;
    var lines := front + [text];
    assert forall i :: 0 <= i < |front| ==> lines[i] == front[i];
    assert lines[|front|] == text;
    if front != [] {
      LogAlgPrefix(Entries(front), ReadLine(text).entry);
    }
  }

  lemma LogAlgPrefix(es: seq<Entry>, e: Entry)
    requires es != []
    ensures LogAlg(es + [e]) == LogAlg(es)
  {
  }

  lemma ReadableSnoc(front: seq<string>, text: string)
    ensures AllReadable(front + [text]) <==> AllReadable(front) && IsReadable(text)
  {
    hide IsReadable;
    var lines := front + [text];
    assert forall i :: 0 <= i < |front| ==> lines[i] == front[i];
    assert lines[|front|] == text;
  }

  lemma UnreadableIsDead(c: VConfig, s: VState, text: string, line: nat)
    requires s.errors == [] && s.phase in {ExpectInit, Processing} && !IsReadable(text)
    ensures Dead(ProcessLine(c, s, text, line).0)
  {
    hide ReadLine, ProcessEntry;
    match ReadLine(text)
    case Unreadable =>
    case Overrun =>
    case Readable(e, certOk) =>
      var s1 := Check(s, certOk, line, CertMalformed);
      assert s1.errors[0] == VError(line, CertMalformed);
      EntryGrows(c, s1, e, line);
  }

  lemma ReadableStep(c: VConfig, s: VState, text: string, line: nat)
    requires s.phase in {ExpectInit, Processing} && IsReadable(text)
    ensures ProcessLine(c, s, text, line) == ProcessEntry(c, s, ReadLine(text).entry, line)
  {
    hide ReadLine, ProcessEntry;
  }

  lemma {:induction false} RunExact(c: VConfig, lines: seq<string>)
    ensures RunIsExact(c, lines)
  {
    hide ReadLine, ProcessLine, PrefixOk, CleanState, LogAlg, IsReadable;
    if lines == [] {
      var alg := LogAlg(Entries(lines));
      assert PrefixOk(c, alg, Entries(lines)) && CleanState(c, alg, Entries(lines)) == INITIAL by {
        EmptyIsClean(c, LogAlg([]));
        assert Entries(lines) == [];
      }
    } else {
      var front, text := lines[..|lines| - 1], lines[|lines| - 1];
      assert lines == front + [text];
      RunExact(c, front);
      RunExactStep(c, front, text);
    }
  }

  lemma EmptyIsClean(c: VConfig, alg: HashAlg)
    ensures PrefixOk(c, alg, []) && CleanState(c, alg, []) == INITIAL
  {
  }

  lemma RunSnoc(c: VConfig, front: seq<string>, text: string)
    ensures RunAll(c, front + [text]) == ProcessLine(c, RunAll(c, front), text, |front| + 1).0
  {
    hide ProcessLine;
    var lines := front + [text];
    assert lines[..|lines| - 1] == front;
  }

  lemma CleanPhase(c: VConfig, alg: HashAlg, es: seq<Entry>)
    ensures var s := CleanState(c, alg, es); s.phase in {ExpectInit, Processing} && s.errors == []
  {
  }

  lemma RunExactStep(c: VConfig, front: seq<string>, text: string)
    requires RunIsExact(c, front)
    ensures RunIsExact(c, front + [text])
  {
    hide ReadLine, ProcessLine, ProcessEntry, PrefixOk, CleanState, LogAlg, Entries, AllReadable;
    var s := RunAll(c, front);
    var line := |front| + 1;
    RunSnoc(c, front, text);
    ReadableSnoc(front, text);
    if Dead(s) {
      DeadStays(c, s, text, line);
      if AllReadable(front + [text]) {
        EntriesSnoc(front, text);
        PrefixFails(c, Entries(front), ReadLine(text).entry);
      }
    } else {
      CleanPhase(c, LogAlg(Entries(front)), Entries(front));
      if !IsReadable(text) {
        UnreadableIsDead(c, s, text, line);
      } else {
        ReadableStep(c, s, text, line);
        EntriesSnoc(front, text);
        EntryStep(c, Entries(front), ReadLine(text).entry, line);
        CleanPhase(c, LogAlg(Entries(front + [text])), Entries(front + [text]));
      }
    }
  }

  lemma PrefixFails(c: VConfig, es: seq<Entry>, e: Entry)
    requires !PrefixOk(c, LogAlg(es), es)
    ensures !PrefixOk(c, LogAlg(es + [e]), es + [e])
  {
    hide PrefixOk, LogAlg;
    if es == [] {
      EmptyIsClean(c, LogAlg(es));
    } else {
      LogAlgPrefix(es, e);
      PrefixStep(c, LogAlg(es), es, e);
    }
  }

  lemma EntryStep(c: VConfig, es: seq<Entry>, e: Entry, line: nat)
    requires PrefixOk(c, LogAlg(es), es)
    ensures var s' := ProcessEntry(c, CleanState(c, LogAlg(es), es), e, line).0;
            && (s'.errors == [] <==> PrefixOk(c, LogAlg(es + [e]), es + [e]))
            && (s'.errors == [] ==> s' == CleanState(c, LogAlg(es + [e]), es + [e]))
  {
    hide ProcessEntry, PrefixOk, LineOk, LogAlg, IsInit, IsSig;
    if es == [] {
      hide CleanState;
      EmptyIsClean(c, LogAlg(es));
      assert [] + [e] == [e];
      StepFirst(c, e, line);
    } else {
      hide CleanState;
      LogAlgPrefix(es, e);
      PrefixStep(c, LogAlg(es), es, e);
      if IsInit(e) {
        StepInit(c, LogAlg(es), es, e, line);
      } else {
        StepInside(c, LogAlg(es), es, e, line);
      }
    }
  }

  lemma FinalizeClean(c: VConfig, alg: HashAlg, es: seq<Entry>)
    ensures var s := CleanState(c, alg, es);
            var s' := Finalize(c, s);
            && (s'.errors == [] <==> es != [] && (c.strict ==> IsSig(es[|es| - 1])))
            && (s'.errors == [] ==> s' == s.(phase := Done))
  {
    hide Fold, SegPayloads, Signatures, Segments;
  }

  lemma FinalizeGrows(c: VConfig, s: VState)
    ensures s.errors <= Finalize(c, s).errors
  {
  }

  /**
   * Acceptance is exactly the declarative predicate: a log passes if and only if every line can be
   * read and the entries form a good log.
   */
  lemma AcceptanceIsLogOk(c: VConfig, lines: seq<string>)
    ensures Accepts(c, lines) <==> AllReadable(lines) && LogOk(c, Entries(lines))
  {
    hide RunAll, PrefixOk, CleanState, Finalize, LogAlg, IsReadable, IsSig, ReadLine;
    RunExact(c, lines);
    var s := RunAll(c, lines);
    FinalizeDead(c, s);
    if !Dead(s) {
      FinalizeClean(c, LogAlg(Entries(lines)), Entries(lines));
    }
  }

  /** A file passes only if its last line leaves no error and no write out of bounds. */
  lemma FinalizeDead(c: VConfig, s: VState)
    ensures Dead(s) ==> Dead(Finalize(c, s))
    ensures s.phase != Lost ==> Finalize(c, s).phase == Done
  {
    FinalizeGrows(c, s);
  }

  /** The counters of an accepted log are those of its lines. */
  lemma AcceptedCounters(c: VConfig, lines: seq<string>)
    requires Accepts(c, lines)
    ensures AllReadable(lines)
    ensures var s := Finalize(c, RunAll(c, lines));
            && s.messages == |lines|
            && s.signatures == Signatures(Entries(lines))
            && s.segments == Segments(Entries(lines))
  {
    hide RunAll, PrefixOk, LogAlg, IsReadable, IsSig, ReadLine, Signatures, Segments, Fold, SegPayloads;
    RunExact(c, lines);
    FinalizeDead(c, RunAll(c, lines));
    FinalizeClean(c, LogAlg(Entries(lines)), Entries(lines));
  }
}

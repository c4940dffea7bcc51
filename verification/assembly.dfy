/** The stored line as the verifier reads it: header, client section and message behind the record. */
module Assembly {
  import opened Wrappers
  import opened Octets
  import opened SdText
  import opened SdRecords
  import opened SdStrip
  import opened SdHeader
  import opened LogVerifier
  import opened Carriage

  /**
   * End to end: from the line the plugin stores, with the certificate it may carry, the verifier gets
   * back the record and the very text that was hashed exactly when that text is carried.
   */
  lemma StoredLineCarries(r: Record, cert: Option<octets>, h: Header, section: string, msg: string)
    requires IsPrintable(r)
    ensures var payload := Payload(RenderHeader(h), section, msg);
            var line := StoredLine(RenderRecord(r) + CertText(cert), RenderHeader(h), section, msg);
            ReadLine(line) == Readable(Entry(r, payload), true) <==> Carried(cert, payload)
  {
    hide ReadLine, RenderRecord, RenderHeader, CleanClient, Carried, CertText;
    var payload := Payload(RenderHeader(h), section, msg);
    var sd := RenderRecord(r) + CertText(cert);
    LineCarries(r, cert, payload);
    Reassociated(sd, RenderHeader(h) + CleanClient(section), msg);
  }

  lemma Reassociated(a: string, b: string, c: string)
    ensures a + b + c == a + (b + c)
  {
  }

  /** The mark cannot straddle the end of the header, so it is in the header or behind it. */
  lemma MarkInHeaderOrBehind(h: Header, rest: string)
    ensures Contains(RenderHeader(h) + rest, CERT_MARK) <==>
              Contains(RenderHeader(h), CERT_MARK) || Contains(rest, CERT_MARK)
  {
    hide Contains, RenderBody;
    var front := RenderHeader(h);
    assert front != "" && front[|front| - 1] == ']';
    CertMarkIsMarker();
    Split(front, rest, CERT_MARK);
  }

  lemma Split(front: string, rest: string, mark: string)
    requires front != "" && front[|front| - 1] !in mark && mark != ""
    ensures Contains(front + rest, mark) <==> Contains(front, mark) || Contains(rest, mark)
  {
    var s := front + rest;
    if Contains(s, mark) {
      var i: nat :| At(s, i, mark);
      AtOneSide(front, rest, mark, i);
    }
    if Contains(front, mark) {
      ContainsMore(front, rest, mark);
    }
    if Contains(rest, mark) {
      var i: nat :| At(rest, i, mark);
      AtBehind(front, rest, mark, i);
    }
  }

  lemma AtBehind(front: string, rest: string, mark: string, i: nat)
    requires At(rest, i, mark)
    ensures At(front + rest, |front| + i, mark)
  {
    forall k | 0 <= k < |mark| ensures (front + rest)[|front| + i + k] == mark[k] {
      assert rest[i + k] == mark[k];
    }
  }

  lemma AtOneSide(front: string, rest: string, mark: string, i: nat)
    requires front != "" && front[|front| - 1] !in mark && mark != "" && At(front + rest, i, mark)
    ensures At(front, i, mark) || (i >= |front| && At(rest, i - |front|, mark))
  {
    var (s, n) := (front + rest, |front|);
    if i >= n {
      forall k | 0 <= k < |mark| ensures rest[i - n + k] == mark[k] {
        assert s[i + k] == mark[k];
      }
    } else {
      if i + |mark| >= n {
        InsideMark(s, i, mark, n - 1);
      }
      forall k | 0 <= k < |mark| && i + k < n ensures front[i + k] == mark[k] {
        assert s[i + k] == mark[k];
      }
    }
  }

  lemma InsideMark(s: string, i: nat, mark: string, j: nat)
    requires At(s, i, mark) && i <= j < i + |mark|
    ensures s[j] in mark
  {
    assert s[i + (j - i)] == mark[j - i];
  }

  // ---------- The mark inside the header ----------

  /** A mark that no escaped character can be part of. */
  predicate IsQuiet(mark: string) {
    IsMarker(mark) && forall c :: c in mark ==> !NeedsEscape(c)
  }

  /** Escaping a text neither makes nor breaks a mark; `k` is how much of one ends both forms. */
  lemma {:induction false} EscapeMatches(v: string, mark: string) returns (k: nat)
    requires IsQuiet(mark)
    ensures if k == |mark| then Contains(v, mark) && Contains(Escape(v), mark)
            else IsMatched(v, mark, k) && IsMatched(Escape(v), mark, k)
  {
    hide IsMatched, Contains, Matched, Escape;
    if v == "" {
      NothingMatched(mark);
      EscapeSnoc(v, 0);
      return 0;
    }
    var front, c := v[..|v| - 1], v[|v| - 1];
    assert v == front + [c] && Escape(v) == Escape(front) + EscapeChar(c) by { EscapeSnoc(v, |v| - 1); Ends(v); }
    var k0 := EscapeMatches(front, mark);
    if k0 == |mark| {
      ContainsMore(front, [c], mark);
      ContainsMore(Escape(front), EscapeChar(c), mark);
      return k0;
    }
    KnownShort(front, mark, k0);
    MatchedStep(front, mark, k0, c);
    k := Matched(mark, k0, c);
    if NeedsEscape(c) {
      QuietReset(mark, k0, c);
      QuietReset(mark, k0, '\\');
      QuietReset(mark, 0, c);
      MatchedStep(Escape(front), mark, k0, '\\');
      MatchedStep(Escape(front) + ['\\'], mark, 0, c);
      assert Escape(front) + ['\\'] + [c] == Escape(v);
    } else {
      MatchedStep(Escape(front), mark, k0, c);
    }
  }

  lemma Ends(v: string)
    requires v != ""
    ensures v == v[..|v| - 1] + [v[|v| - 1]] && v[..|v|] == v
  {
  }

  lemma KnownShort(t: string, mark: string, k: nat)
    requires IsMatched(t, mark, k)
    ensures k < |mark|
  {
  }

  lemma QuietReset(mark: string, k: nat, c: char)
    requires IsQuiet(mark) && k < |mark| && NeedsEscape(c)
    ensures Matched(mark, k, c) == 0
  {
    assert mark[k] in mark;
  }

  lemma EscapeKeepsMark(v: string, mark: string)
    requires IsQuiet(mark)
    ensures Contains(Escape(v), mark) <==> Contains(v, mark)
  {
    hide Contains, Escape;
    var k := EscapeMatches(v, mark);
    if k < |mark| {
      MatchedIsFree(v, mark, k);
      MatchedIsFree(Escape(v), mark, k);
    }
  }

  lemma MarkNeedsBracket(t: string, mark: string)
    requires mark != "" && mark[0] == '['
    ensures Contains(t, mark) ==> '[' in t
  {
    if Contains(t, mark) {
      var i: nat :| At(t, i, mark);
      CharOfMark(t, i, mark, 0);
    }
  }

  lemma CharOfMark(s: string, i: nat, mark: string, k: nat)
    requires At(s, i, mark) && k < |mark|
    ensures s[i + k] == mark[k]
  {
  }

  /** In a parameter the mark can only be in the value. */
  lemma MarkInParam(p: Param, mark: string)
    requires IsMarker(mark) && '[' !in p.key
    ensures Contains(RenderParam(p), mark) <==> Contains(p.value, mark)
  {
    hide Contains;
    var front := p.key + "=\"";
    MarkNeedsBracket(front, mark);
    Split(front, p.value + "\"", mark);
    assert RenderParam(p) == front + (p.value + "\"");
    QuoteBehind(p.value, mark);
  }

  lemma QuoteBehind(v: string, mark: string)
    requires IsMarker(mark)
    ensures Contains(v + "\"", mark) <==> Contains(v, mark)
  {
    hide Contains;
    ContainsSnoc(v, mark, '"');
    LastIsInside(mark);
    if EndsWith(v + "\"", mark, |mark|) {
      EndsWithSnoc(v, mark, |mark|, '"');
    }
  }

  lemma LastIsInside(mark: string)
    requires mark != ""
    ensures mark[|mark| - 1] in mark
  {
  }

  ghost predicate InSomeValue(ps: seq<Param>, mark: string) {
    exists k :: 0 <= k < |ps| && Contains(ps[k].value, mark)
  }

  lemma {:induction false} MarkInBody(ps: seq<Param>, mark: string)
    requires IsMarker(mark) && forall k :: 0 <= k < |ps| ==> '[' !in ps[k].key
    ensures Contains(RenderBody(ps), mark) <==> InSomeValue(ps, mark)
  {
    hide Contains, RenderParam, IsMarker;
    if ps == [] {
      assert mark != "" by { MarkerOpens(mark); }
      EmptyIsFree(mark);
    } else {
      MarkInParam(ps[0], mark);
      SomeValueCons(ps, mark);
      if |ps| > 1 {
        MarkInBody(ps[1..], mark);
        ParamThenBody(ps, mark);
      }
    }
  }

  lemma MarkerOpens(mark: string)
    requires IsMarker(mark)
    ensures mark != "" && mark[0] == '['
  {
  }

  lemma SomeValueCons(ps: seq<Param>, mark: string)
    requires ps != []
    ensures InSomeValue(ps, mark) <==> Contains(ps[0].value, mark) || InSomeValue(ps[1..], mark)
  {
    hide Contains;
    if InSomeValue(ps, mark) {
      var k :| 0 <= k < |ps| && Contains(ps[k].value, mark);
      assert k > 0 ==> ps[1..][k - 1] == ps[k];
    }
    if InSomeValue(ps[1..], mark) {
      var k :| 0 <= k < |ps[1..]| && Contains(ps[1..][k].value, mark);
      assert ps[k + 1] == ps[1..][k];
    }
  }

  lemma ParamThenBody(ps: seq<Param>, mark: string)
    requires |ps| > 1 && IsMarker(mark)
    ensures Contains(RenderBody(ps), mark) <==>
              Contains(RenderParam(ps[0]), mark) || Contains(RenderBody(ps[1..]), mark)
  {
    hide Contains, RenderBody;
    var first, rest := RenderParam(ps[0]), RenderBody(ps[1..]);
    RenderBodySplit(ps);
    assert first[|first| - 1] == '"';
    Split(first, [' '] + rest, mark);
    SpaceAhead(rest, mark);
  }

  /** No mark starts with a space. */
  lemma SpaceAhead(t: string, mark: string)
    requires mark != "" && mark[0] == '['
    ensures Contains([' '] + t, mark) <==> Contains(t, mark)
  {
    var s := [' '] + t;
    if Contains(s, mark) {
      var i: nat :| At(s, i, mark);
      assert s[i + 0] == mark[0];
      AtTail(s, t, mark, i);
    }
    if Contains(t, mark) {
      var i: nat :| At(t, i, mark);
      AtBehind([' '], t, mark, i);
    }
  }

  lemma AtTail(s: string, t: string, mark: string, i: nat)
    requires s == [' '] + t && i > 0 && At(s, i, mark)
    ensures At(t, i - 1, mark)
  {
    forall k | 0 <= k < |mark| ensures t[i - 1 + k] == mark[k] {
      assert s[i + k] == mark[k];
    }
  }

  /** Some client-controlled header field spells the certificate mark. */
  ghost predicate FieldHasMark(h: Header) {
    || Contains(h.ts, CERT_MARK) || Contains(h.host, CERT_MARK) || Contains(h.app, CERT_MARK)
    || Contains(h.procid, CERT_MARK) || Contains(h.msgid, CERT_MARK)
  }

  lemma MarkInValues(h: Header)
    ensures InSomeValue(HeaderParams(h), CERT_MARK) <==> FieldHasMark(h)
  {
    hide Contains, Escape, Decimal, IsMarker;
    CertMarkIsQuiet();
    EscapeKeepsMark(h.ts, CERT_MARK);
    EscapeKeepsMark(h.host, CERT_MARK);
    EscapeKeepsMark(h.app, CERT_MARK);
    EscapeKeepsMark(h.procid, CERT_MARK);
    EscapeKeepsMark(h.msgid, CERT_MARK);
    DigitsHaveNoMark(h.pri);
    var ps := HeaderParams(h);
    HeaderParamsLength(h);
    assert ps[1].value == Escape(h.ts) && ps[2].value == Escape(h.host) && ps[3].value == Escape(h.app);
    assert ps[4].value == Escape(h.procid) && ps[5].value == Escape(h.msgid);
  }

  lemma DigitsHaveNoMark(n: nat)
    ensures !Contains(Decimal(n), CERT_MARK)
  {
    hide Contains;
    DecimalDigits(n);
    MarkNeedsBracket(Decimal(n), CERT_MARK);
  }

  lemma CertMarkIsQuiet()
    ensures IsQuiet(CERT_MARK)
  {
    CertMarkIsMarker();
  }

  /** The header element contains the mark exactly when a field of the message does. */
  lemma MarkInHeader(h: Header)
    ensures Contains(RenderHeader(h), CERT_MARK) <==> FieldHasMark(h)
  {
    hide Contains, RenderBody, FieldHasMark, InSomeValue, HeaderParams, Mark, IsMarker;
    var body := RenderBody(HeaderParams(h));
    CertMarkIsMarker();
    HeaderKeysHaveMarkNeedsBracket(h);
    MarkInBody(HeaderParams(h), CERT_MARK);
    MarkInValues(h);
    HeaderAround(h, body);
  }

  lemma HeaderKeysHaveMarkNeedsBracket(h: Header)
    ensures forall k :: 0 <= k < |HeaderParams(h)| ==> '[' !in HeaderParams(h)[k].key
    ensures HeaderParams(h) != []
  {
    hide Escape, Decimal;
  }

  lemma HeaderAround(h: Header, body: string)
    requires body == RenderBody(HeaderParams(h)) && HeaderParams(h) != []
    ensures Contains(RenderHeader(h), CERT_MARK) <==> Contains(body, CERT_MARK)
  {
    hide Contains, RenderBody, HeaderParams, IsMarker;
    var m := Mark(HDR_ID);
    Reassociated(m, body, "]");
    HeaderMarkIsNoCert(m, body + "]");
    BracketBehindText(body);
  }

  lemma BracketBehindText(t: string)
    ensures Contains(t + "]", CERT_MARK) <==> Contains(t, CERT_MARK)
  {
    hide Contains;
    ContainsSnoc(t, CERT_MARK, ']');
    if EndsWith(t + "]", CERT_MARK, |CERT_MARK|) {
      EndsWithSnoc(t, CERT_MARK, |CERT_MARK|, ']');
    }
  }

  lemma HeaderMarkIsNoCert(m: string, rest: string)
    requires m == Mark(HDR_ID)
    ensures Contains(m + rest, CERT_MARK) <==> Contains(rest, CERT_MARK)
  {
    var s := m + rest;
    assert forall j :: 0 <= j < |m| ==> s[j] == m[j] && (j > 0 ==> m[j] != '[');
    assert m[17] == 'h' && CERT_MARK[17] == 'c' && CERT_MARK[0] == '[';
    if Contains(s, CERT_MARK) {
      var i: nat :| At(s, i, CERT_MARK);
      CharOfMark(s, i, CERT_MARK, 0);
      CharOfMark(s, i, CERT_MARK, 17);
      assert i >= |m|;
      AtDrop(m, rest, CERT_MARK, i);
    }
    if Contains(rest, CERT_MARK) {
      var i: nat :| At(rest, i, CERT_MARK);
      AtBehind(m, rest, CERT_MARK, i);
    }
  }

  lemma AtDrop(front: string, rest: string, mark: string, i: nat)
    requires i >= |front| && At(front + rest, i, mark)
    ensures At(rest, i - |front|, mark)
  {
    forall k | 0 <= k < |mark| ensures rest[i - |front| + k] == mark[k] {
      assert (front + rest)[i + k] == mark[k];
    }
  }

  /**
   * What the caller can check: without a certificate the stored line is read back exactly when the
   * hashed text fits, no header field contains the certificate mark, and the walk over the client's
   * section and the message does not come to spell it.
   */
  lemma StoredLineCarriesFields(r: Record, h: Header, section: string, msg: string)
    requires IsPrintable(r)
    ensures var payload := Payload(RenderHeader(h), section, msg);
            var line := StoredLine(RenderRecord(r), RenderHeader(h), section, msg);
            ReadLine(line) == Readable(Entry(r, payload), true) <==>
              |payload| < 8192 && !FieldHasMark(h) && !CleanGlues(section, CERT_MARK, msg)
  {
    hide ReadLine, RenderRecord, RenderHeader, CleanClient, CleanGlues, Contains, IsPrintable, FieldHasMark;
    StoredLineCarries(r, None, h, section, msg);
    assert RenderRecord(r) + CertText(None) == RenderRecord(r);
    Reassociated(RenderHeader(h), CleanClient(section), msg);
    MarkInHeaderOrBehind(h, CleanClient(section) + msg);
    MarkInHeader(h);
    CertMarkIsMarker();
    CleanedContains(section, CERT_MARK, msg);
  }

  /** A message whose text contains the mark, wherever it stands, is not read back. */
  lemma MarkedMessageIsNotCarried(r: Record, h: Header, section: string, msg: string)
    requires IsPrintable(r) && Contains(msg, CERT_MARK)
    ensures var payload := Payload(RenderHeader(h), section, msg);
            ReadLine(StoredLine(RenderRecord(r), RenderHeader(h), section, msg)) != Readable(Entry(r, payload), true)
  {
    hide ReadLine, RenderRecord, RenderHeader, CleanClient, CleanGlues, Contains, IsPrintable, FieldHasMark;
    ContainsBehind(CleanClient(section), msg, CERT_MARK);
    CertMarkIsMarker();
    CleanedContains(section, CERT_MARK, msg);
    StoredLineCarriesFields(r, h, section, msg);
  }

  lemma ContainsBehind(front: string, rest: string, mark: string)
    requires Contains(rest, mark)
    ensures Contains(front + rest, mark)
  {
    var i: nat :| At(rest, i, mark);
    AtBehind(front, rest, mark, i);
  }

  // ---------- Real inputs that are not carried ----------

  const CLIENT_CERT: string := CERT_MARK + "cert=\"AAAA\"]"

  /** A client's own certificate element is passed on, hashed, and then stripped by the verifier. */
  lemma ClientCertIsNotCarried(r: Record, h: Header, msg: string)
    requires IsPrintable(r)
    ensures CleanClient(CLIENT_CERT) == CLIENT_CERT
    ensures var payload := Payload(RenderHeader(h), CLIENT_CERT, msg);
            var line := StoredLine(RenderRecord(r), RenderHeader(h), CLIENT_CERT, msg);
            ReadLine(line) != Readable(Entry(r, payload), true)
  {
    hide ReadLine, RenderRecord, RenderHeader, CleanClient, CleanGlues, Contains, IsPrintable;
    ClientCertStays();
    ContainsMore(CleanClient(CLIENT_CERT), msg, CERT_MARK);
    CertMarkIsMarker();
    CleanedContains(CLIENT_CERT, CERT_MARK, msg);
    StoredLineCarriesFields(r, h, CLIENT_CERT, msg);
  }

  lemma ClientCertStays()
    ensures CleanClient(CLIENT_CERT) == CLIENT_CERT && Contains(CLIENT_CERT, CERT_MARK)
  {
    hide StripAll, Contains, At, Mark;
    var s, tail := CLIENT_CERT, "cert=\"AAAA\"]";
    CertMarkIsMarker();
    OneBracket(CERT_MARK, tail);
    NoOtherMark(CERT_MARK + tail, tail);
    OtherElementStays(s, Mark(SD_ID));
    OtherElementStays(s, Mark(HDR_ID));
    Holds(s, 0, CERT_MARK);
  }

  lemma OneBracket(mark: string, tail: string)
    requires IsMarker(mark) && '[' !in tail
    ensures At(mark + tail, 0, mark) && '[' !in (mark + tail)[1..]
  {
  }

  lemma NoOtherMark(s: string, tail: string)
    requires s == CERT_MARK + tail
    ensures !At(s, 0, Mark(SD_ID)) && !At(s, 0, Mark(HDR_ID)) && s != "-" && s != ""
    ensures Mark(SD_ID) != "" && Mark(SD_ID)[0] == '[' && Mark(HDR_ID) != "" && Mark(HDR_ID)[0] == '['
  {
    assert s[16] == CERT_MARK[16] && s[17] == CERT_MARK[17];
    assert s[0 + 16] != Mark(SD_ID)[16] && s[0 + 17] != Mark(HDR_ID)[17];
  }

  lemma Holds(s: string, i: nat, mark: string)
    requires At(s, i, mark)
    ensures Contains(s, mark)
  {
  }

  lemma CertMarkIsUnescaped()
    ensures Escape(CERT_MARK) == CERT_MARK
  {
    hide Escape;
    assert forall c :: c in CERT_MARK ==> !NeedsEscape(c);
    PlainIsUnescaped(CERT_MARK);
  }

  /** A host name that spells the certificate mark passes the escape unchanged and breaks its line. */
  lemma HostileHostIsNotCarried(r: Record, h: Header, section: string, msg: string)
    requires IsPrintable(r) && h.host == CERT_MARK
    ensures Escape(h.host) == h.host
    ensures var payload := Payload(RenderHeader(h), section, msg);
            ReadLine(StoredLine(RenderRecord(r), RenderHeader(h), section, msg)) != Readable(Entry(r, payload), true)
  {
    hide ReadLine, RenderRecord, RenderHeader, CleanClient, CleanGlues, Contains, Escape, IsPrintable;
    assert At(h.host, 0, CERT_MARK);
    CertMarkIsUnescaped();
    Holds(h.host, 0, CERT_MARK);
    StoredLineCarriesFields(r, h, section, msg);
  }
}

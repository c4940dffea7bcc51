/** The header-capture element and the assembly of payload and line around the signing call. */
module SdHeader {
  import opened Wrappers
  import opened Octets
  import opened SdText
  import opened SdRecords
  import opened SdStrip

  datatype Header = Header(pri: nat, ts: string, host: string, app: string, procid: string, msgid: string)

  /** Six parameters in a fixed order, each present even when empty. */
  function HeaderParams(h: Header): seq<Param> {
    [Param("pri", Decimal(h.pri)), Param("ts", Escape(h.ts)), Param("host", Escape(h.host)),
     Param("app", Escape(h.app)), Param("procid", Escape(h.procid)), Param("msgid", Escape(h.msgid))]
  }

  function HeaderElement(h: Header): Element {
    Element(HDR_ID, HeaderParams(h))
  }

  function RenderHeader(h: Header): string {
    RenderElement(HeaderElement(h))
  }

  /** Fails when an escaped field or the whole element does not fit its buffer. */
  function FormatHeader(h: Header, cap: nat): Option<string> {
    if |Escape(h.ts)| >= 80 || |Escape(h.host)| >= 520 || |Escape(h.app)| >= 136
       || |Escape(h.procid)| >= 136 || |Escape(h.msgid)| >= 136 then None
    else if |RenderHeader(h)| >= cap then None
    else Some(RenderHeader(h))
  }

  lemma {:induction false} PlainIsUnescaped(v: string)
    requires forall c :: c in v ==> !NeedsEscape(c)
    ensures Escape(v) == v
  {
    if v != "" {
      var front := v[..|v| - 1];
      assert forall c :: c in front ==> c in v;
      PlainIsUnescaped(front);
      assert v[|v| - 1] in v;
      assert v == front + [v[|v| - 1]];
    }
  }

  lemma {:induction false} EscapePrefix(v: string, n: nat)
    requires n <= |v|
    ensures |Escape(v[..n])| <= |Escape(v)|
    decreases |v|
  {
    if n < |v| {
      EscapePrefix(v[..|v| - 1], n);
      assert v[..|v| - 1][..n] == v[..n];
    } else {
      assert v[..n] == v;
    }
  }

  lemma EscapeSnoc(v: string, i: nat)
    requires i <= |v|
    ensures i < |v| ==> Escape(v[..i + 1]) == Escape(v[..i]) + EscapeChar(v[i])
    ensures Escape(v[..0]) == ""
  {
    if i < |v| {
      assert v[..i + 1][..i] == v[..i];
    }
  }

  /** Escapes into a buffer; refuses exactly when the result and its terminator do not fit. */
  method EscapeParam(input: string, out: array<char>) returns (len: int)
    modifies out
    ensures len == -1 <==> |Escape(input)| >= out.Length
    ensures len != -1 ==> len == |Escape(input)| && out[..len] == Escape(input) && out[len] == '\0'
  {
    hide Escape;
    var j := 0;
    EscapeSnoc(input, 0);
    for i := 0 to |input|
      invariant 0 <= j <= out.Length && (j < out.Length || j == 0)
      invariant out[..j] == Escape(input[..i])
    {
      var c := input[i];
      EscapePrefix(input, i + 1);
      EscapeSnoc(input, i);
      if NeedsEscape(c) {
        if j + 2 >= out.Length {
          return -1;
        }
        out[j] := '\\';
        out[j + 1] := c;
        assert out[..j + 2] == out[..j] + EscapeChar(c);
        j := j + 2;
      } else {
        if j + 1 >= out.Length {
          return -1;
        }
        out[j] := c;
        assert out[..j + 1] == out[..j] + EscapeChar(c);
        j := j + 1;
      }
    }
    assert input[..|input|] == input;
    if j >= out.Length {
      return -1;
    }
    out[j] := '\0';
    return j;
  }

  /** Escapes the five text fields into their buffers and prints the element. */
  method FormatHdr(h: Header, cap: nat) returns (out: Option<string>)
    ensures out == FormatHeader(h, cap)
  {
    hide Escape, RenderElement, Decimal;
    var ts, host := new char[80], new char[520];
    var app, procid, msgid := new char[136], new char[136], new char[136];
    var n1 := EscapeParam(h.ts, ts);
    if n1 < 0 {
      return None;
    }
    var n2 := EscapeParam(h.host, host);
    if n2 < 0 {
      return None;
    }
    var n3 := EscapeParam(h.app, app);
    if n3 < 0 {
      return None;
    }
    var n4 := EscapeParam(h.procid, procid);
    if n4 < 0 {
      return None;
    }
    var n5 := EscapeParam(h.msgid, msgid);
    if n5 < 0 {
      return None;
    }
    var text := RenderElement(Element(HDR_ID, [
      Param("pri", Decimal(h.pri)), Param("ts", ts[..n1]), Param("host", host[..n2]),
      Param("app", app[..n3]), Param("procid", procid[..n4]), Param("msgid", msgid[..n5])]));
    if |text| >= cap {
      return None;
    }
    return Some(text);
  }

  // ---------- The header element is self-delimiting ----------

  lemma HeaderParamsOk(h: Header)
    ensures AreParams(HeaderParams(h))
  {
    hide Escape, Decimal, IsParam;
    assert IsName("pri") && IsName("ts") && IsName("host") && IsName("app") && IsName("procid") && IsName("msgid");
    NumberParam("pri", h.pri);
    EscapedParam("ts", h.ts);
    EscapedParam("host", h.host);
    EscapedParam("app", h.app);
    EscapedParam("procid", h.procid);
    EscapedParam("msgid", h.msgid);
  }

  lemma EscapedParam(key: string, v: string)
    requires IsName(key)
    ensures IsParam(Param(key, Escape(v)))
  {
    EscapeRoundTrip(v);
    ParamValueIsClosed(Escape(v));
  }

  lemma NumberParam(key: string, n: nat)
    requires IsName(key)
    ensures IsParam(Param(key, Decimal(n)))
  {
    DecimalIsPlain(n);
    PlainIsClosed(Decimal(n));
  }

  lemma DecimalIsPlain(n: nat)
    ensures IsPlain(Decimal(n))
  {
    DecimalDigits(n);
    forall c | c in Decimal(n) ensures c != ' ' && c != '"' && c != '\\' && c != ']' {
      var i :| 0 <= i < |Decimal(n)| && Decimal(n)[i] == c;
      assert IsDigit(Decimal(n)[i]);
    }
  }

  lemma SameParam(s: string, i: nat, p: Param, q: Param)
    requires IsParam(p) && IsParam(q) && p.key == q.key
    requires At(s, i, RenderParam(p)) && At(s, i, RenderParam(q))
    ensures p == q
  {
    hide IsClosed, IsName, RenderParam;
    RenderParamAt(s, i, p);
    RenderParamAt(s, i, q);
    var v := i + |p.key| + 2;
    SameValue(s, v, p.value, q.value);
  }

  lemma SameValue(s: string, v: nat, a: string, b: string)
    requires IsClosed(a) && IsClosed(b) && At(s, v, a) && At(s, v, b)
    requires v + |a| < |s| && s[v + |a|] == '"' && v + |b| < |s| && s[v + |b|] == '"'
    ensures a == b
  {
    hide IsClosed, QuotedEnd;
    QuotedEndClosed(s, v, a);
    QuotedEndClosed(s, v, b);
    AtSlice(s, v, a);
    AtSlice(s, v, b);
  }

  /** Two parameter lists with the same names that stand at the same place are the same list. */
  lemma {:induction false} SameBody(s: string, i: nat, ps: seq<Param>, qs: seq<Param>)
    requires AreParams(ps) && AreParams(qs) && |ps| == |qs|
    requires forall k :: 0 <= k < |ps| ==> ps[k].key == qs[k].key
    requires At(s, i, RenderBody(ps)) && At(s, i, RenderBody(qs))
    ensures ps == qs
    decreases |ps|
  {
    hide At, IsParam, RenderParam;
    if ps != [] {
      RenderBodyAt(s, i, ps);
      RenderBodyAt(s, i, qs);
      SameParam(s, i, ps[0], qs[0]);
      if |ps| > 1 {
        SameBody(s, i + |RenderParam(ps[0])| + 1, ps[1..], qs[1..]);
      }
      assert ps == [ps[0]] + ps[1..] && qs == [qs[0]] + qs[1..];
    }
  }

  lemma EscapeInjective(v: string, w: string)
    requires Escape(v) == Escape(w)
    ensures v == w
  {
    EscapeRoundTrip(v);
    EscapeRoundTrip(w);
  }

  lemma HeaderParamsInjective(g: Header, h: Header)
    requires HeaderParams(g) == HeaderParams(h)
    ensures g == h
  {
    hide Escape, Decimal;
    var ps, qs := HeaderParams(g), HeaderParams(h);
    assert ps[0] == qs[0] && ps[1] == qs[1] && ps[2] == qs[2] && ps[3] == qs[3] && ps[4] == qs[4] && ps[5] == qs[5];
    DecimalDigits(g.pri);
    DecimalDigits(h.pri);
    EscapeInjective(g.ts, h.ts);
    EscapeInjective(g.host, h.host);
    EscapeInjective(g.app, h.app);
    EscapeInjective(g.procid, h.procid);
    EscapeInjective(g.msgid, h.msgid);
  }

  lemma BodyOfElement(s: string, m: string, ps: seq<Param>, rest: string)
    requires AreParams(ps) && s == (m + RenderBody(ps) + "]") + rest
    ensures At(s, |m|, RenderBody(ps))
    ensures ScanElement(s, |m|) == Some(|m| + |RenderBody(ps)| + 1)
  {
    hide At, ScanElement, RenderBody, AreParams;
    var t := m + RenderBody(ps) + "]";
    assert At(s, 0, t) by {
      AtParts("", t, rest);
      assert "" + t + rest == s;
    }
    ElementPieces(s, 0, m, RenderBody(ps));
    ScanRendered(s, |m|, ps);
  }

  lemma HeaderBodyAt(s: string, h: Header, rest: string)
    requires s == RenderHeader(h) + rest
    ensures At(s, |Mark(HDR_ID)|, RenderBody(HeaderParams(h)))
    ensures ScanElement(s, |Mark(HDR_ID)|) == Some(|RenderHeader(h)|)
  {
    hide At, ScanElement, RenderBody, HeaderParams, Mark, AreParams;
    HeaderParamsLength(h);
    HeaderParamsOk(h);
    BodyOfElement(s, Mark(HDR_ID), HeaderParams(h), rest);
  }

  lemma HeaderParamsLength(h: Header)
    ensures |HeaderParams(h)| == 6
  {
  }

  lemma HeaderKeys(g: Header, h: Header)
    ensures |HeaderParams(g)| == |HeaderParams(h)| == 6
    ensures forall k :: 0 <= k < 6 ==> HeaderParams(g)[k].key == HeaderParams(h)[k].key
  {
  }

  /**
   * The header element is self-delimiting: the six fields and the rest of the text are determined
   * by the text, and the scanner stops exactly at the closing bracket.
   */
  lemma HeaderSelfDelimiting(g: Header, r: string, h: Header, t: string)
    requires RenderHeader(g) + r == RenderHeader(h) + t
    ensures g == h && r == t
    ensures ScanElement(RenderHeader(g) + r, |Mark(HDR_ID)|) == Some(|RenderHeader(g)|)
  {
    hide At, RenderBody, HeaderParams, RenderHeader, ScanElement, IsParam, AreParams;
    var s := RenderHeader(g) + r;
    HeaderBodyAt(s, g, r);
    HeaderBodyAt(s, h, t);
    HeaderParamsOk(g);
    HeaderParamsOk(h);
    HeaderKeys(g, h);
    SameBody(s, |Mark(HDR_ID)|, HeaderParams(g), HeaderParams(h));
    HeaderParamsInjective(g, h);
    assert r == s[|RenderHeader(g)|..] == t;
  }

  // ---------- Assembly around the signing call ----------

  /** The client's section after the two strips; elements without parameters are not theirs to remove. */
  function CleanClient(section: string): string {
    if section == "-" then "" else StripAll(StripAll(section, Mark(SD_ID), 0), Mark(HDR_ID), 0)
  }

  /**
   * The walk that decides what the cleaned section and the text behind it spell: over the result of the
   * first strip, as the second one removes from it.
   */
  predicate CleanGlues(section: string, mark: string, rest: string)
    requires mark != ""
  {
    if section == "-" then Spells(rest, mark, 0)
    else Glues(StripAll(section, Mark(SD_ID), 0), Mark(HDR_ID), mark, 0, 0, rest)
  }

  /**
   * What is passed on after both strips, with what follows it, contains a mark, be it the chain's, the
   * header's or the certificate's, exactly when that walk comes to spell it.
   */
  lemma CleanedContains(section: string, mark: string, rest: string)
    requires IsMarker(mark)
    ensures Contains(CleanClient(section) + rest, mark) <==> CleanGlues(section, mark, rest)
  {
    hide StripAll, Glues, Spells, Contains;
    if section == "-" {
      NothingMatched(mark);
      SpellWalk(rest, mark, "", 0);
      assert CleanClient(section) + rest == "" + rest;
    } else {
      StripLeaves(StripAll(section, Mark(SD_ID), 0), Mark(HDR_ID), mark, rest);
    }
  }

  /** The three marks of the signer in the section it passes on. */
  lemma CleanedMarks(section: string)
    ensures Contains(CleanClient(section), CHAIN_MARK) <==> CleanGlues(section, CHAIN_MARK, "")
    ensures Contains(CleanClient(section), Mark(HDR_ID)) <==> CleanGlues(section, Mark(HDR_ID), "")
    ensures Contains(CleanClient(section), CERT_MARK) <==> CleanGlues(section, CERT_MARK, "")
  {
    hide CleanClient, CleanGlues, Contains;
    ChainMarkIsMarker();
    MarkIsMarker(HDR_ID);
    CertMarkIsMarker();
    assert CleanClient(section) + "" == CleanClient(section);
    CleanedContains(section, CHAIN_MARK, "");
    CleanedContains(section, Mark(HDR_ID), "");
    CleanedContains(section, CERT_MARK, "");
  }

  /** What is hashed: the header element, the cleaned client section and the message. */
  function Payload(header: string, section: string, msg: string): string {
    header + CleanClient(section) + msg
  }

  /** The stored line: the signer's own elements, then the hashed text. */
  function StoredLine(sd: string, header: string, section: string, msg: string): string {
    sd + (header + CleanClient(section)) + msg
  }

  /** The hashed text determines all six header fields and everything after the header element. */
  lemma PayloadDeterminesHeader(g: Header, section: string, msg: string, h: Header, section': string, msg': string)
    requires Payload(RenderHeader(g), section, msg) == Payload(RenderHeader(h), section', msg')
    ensures g == h && CleanClient(section) + msg == CleanClient(section') + msg'
  {
    hide CleanClient, RenderHeader;
    var r, t := CleanClient(section) + msg, CleanClient(section') + msg';
    assert Payload(RenderHeader(g), section, msg) == RenderHeader(g) + r;
    assert Payload(RenderHeader(h), section', msg') == RenderHeader(h) + t;
    HeaderSelfDelimiting(g, r, h, t);
  }

  /**
   * The client's elements as the signer passes them on: each one that neither pass targets, whole, in
   * its place and as often as it came.
   */
  lemma CleanedSection(es: seq<Element>)
    requires IsSection(es, SD_ID) && IsSection(es, HDR_ID)
    ensures RenderAll(es) != "-"
    ensures CleanClient(RenderAll(es)) == RenderAll(Others(Others(es, SD_ID), HDR_ID))
  {
    hide IsElement, Contains, StripAll, IsTarget;
    assert RenderAll(es) != "-" by {
      if es != [] {
        assert RenderElement(es[0])[0] == '[';
        assert RenderAll(es)[0] == '[';
      }
    }
    StripBoth(es, SD_ID, HDR_ID);
  }

  /** An element with a signer's identifier and no parameters, legal in RFC 5424, is passed on. */
  lemma BareElementStays()
    ensures CleanClient("[mmhashchainsigs@32473]") == "[mmhashchainsigs@32473]"
    ensures CleanClient("[mmhashchainsigs-hdr@32473]") == "[mmhashchainsigs-hdr@32473]"
  {
    hide StripAll;
    var s, t := "[mmhashchainsigs@32473]", "[mmhashchainsigs-hdr@32473]";
    assert s[0 + 22] != Mark(SD_ID)[22] && s[0 + 16] != Mark(HDR_ID)[16];
    assert t[0 + 16] != Mark(SD_ID)[16] && t[0 + 26] != Mark(HDR_ID)[26];
    OtherElementStays(s, Mark(SD_ID));
    OtherElementStays(s, Mark(HDR_ID));
    OtherElementStays(t, Mark(SD_ID));
    OtherElementStays(t, Mark(HDR_ID));
  }

  /** Removing a client's own chain element can leave the chain mark in what is passed on and hashed. */
  lemma CleaningCanGlue(rest: string)
    requires rest != "" && rest[0] == ' ' && '[' !in rest
    ensures CleanClient("[mmhashchainsigs@32473" + "[mmhashchainsigs@32473 ]" + rest) == "[mmhashchainsigs@32473" + rest
    ensures Contains("[mmhashchainsigs@32473" + rest, CHAIN_MARK)
  {
    hide StripAll;
    var once := "[mmhashchainsigs@32473" + rest;
    StripCanGlue(SD_ID, rest);
    assert "[" + SD_ID == "[mmhashchainsigs@32473" && Mark(SD_ID) + "]" == "[mmhashchainsigs@32473 ]";
    assert Mark(SD_ID) == CHAIN_MARK;
    assert once[0 + 16] != Mark(HDR_ID)[16];
    assert '[' !in once[1..];
    OtherElementStays(once, Mark(HDR_ID));
    assert ("[mmhashchainsigs@32473" + "[mmhashchainsigs@32473 ]" + rest)[1] == 'm';
  }

  /**
   * Strips both identifiers, the second pass in place.  The buffers are one longer than the
   * section, so neither pass can fail.
   */
  method CleanSection(section: array<char>, n: nat) returns (out: array<char>, len: nat)
    requires n <= section.Length
    ensures fresh(out) && section[..] == old(section[..])
    ensures len <= out.Length
    ensures section[..n] == "-" ==> len == 0
    ensures out[..len] == CleanClient(section[..n])
  {
    hide StripAll, Contains;
    if n == 0 || (n == 1 && section[0] == '-') {
      out := new char[0];
      len := 0;
      EmptyClean();
      if n == 1 {
        assert section[..n] == "-";
      }
      return;
    }
    out := new char[n + 1];
    var m1, m2 := Mark(SD_ID), Mark(HDR_ID);
    assert m1 != "" && m2 != "";
    var k, _ := StripAllSd(section, n, m1, out, n + 1);
    assert section[..n] == old(section[..n]);
    var l, _ := StripAllSd(out, k, m2, out, n + 1);
    len := l;
    assert section[..n] == old(section[..n]);
    assert section[..n] != "-" by {
      assert n == 1 ==> section[..n][0] == section[0];
    }
  }

  lemma EmptyClean()
    ensures CleanClient("") == "" && CleanClient("-") == ""
  {
  }
}

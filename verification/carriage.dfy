/** What the verifier reads back from a line made of a printed record, a certificate and a payload. */
module Carriage {
  import opened Wrappers
  import opened Octets
  import opened Crypto
  import opened SdText
  import opened SdRecords
  import opened LogVerifier

  lemma EmptyIsFree(mark: string)
    requires mark != ""
    ensures !Contains("", mark)
  {
  }

  lemma StripCarried(r: Record, rest: string)
    requires IsShape(r)
    ensures StripLine(RenderRecord(r) + rest, MSG_BUF_LEN) ==
            if !SigFits(r) then StripOverrun
            else if |rest| < MSG_BUF_LEN then Stripped(rest, r)
            else NotStripped
  {
    hide StripLine, RenderRecord, IsShape, SigFits;
    EmptyIsFree(CHAIN_MARK);
    LineRoundTrip("", r, rest, MSG_BUF_LEN);
    assert "" + RenderRecord(r) + rest == RenderRecord(r) + rest;
    assert "" + rest == rest;
  }

  /**
   * A printed record followed by a payload is read back as that record and that payload exactly when
   * the payload fits the buffer and is free of the certificate mark; in any other reading the record
   * is still the one printed.
   */
  lemma CarriesExactly(r: Record, payload: string)
    requires IsPrintable(r)
    ensures ReadLine(RenderRecord(r) + payload) == Readable(Entry(r, payload), true) <==>
              |payload| < 8192 && !Contains(payload, CERT_MARK)
    ensures var g := ReadLine(RenderRecord(r) + payload);
            g.Readable? ==> g.entry.record == r && |g.entry.payload| <= |payload|
  {
    hide StripLine, RenderRecord, IsShape, ExtractCert;
    StripCarried(r, payload);
    NoCertToExtract(payload, MSG_BUF_LEN, CERT_DER_MAX);
  }

  /**
   * With the signer's own certificate between them a payload is read back, whatever it contains,
   * exactly when all fits; a certificate whose decoded groups exceed 4096 octets overruns its buffer.
   */
  lemma CarriesWithCert(r: Record, der: octets, payload: string)
    requires IsPrintable(r)
    ensures ReadLine(RenderRecord(r) + CertElement(der) + payload) ==
            if |CertElement(der)| + |payload| >= 8192 then Unreadable
            else if (|der| + 2) / 3 * 3 > 4096 then Overrun
            else Readable(Entry(r, payload), true)
  {
    hide StripLine, RenderRecord, IsShape, ExtractCert, CertElement;
    StripCarried(r, CertElement(der) + payload);
    assert RenderRecord(r) + (CertElement(der) + payload) == RenderRecord(r) + CertElement(der) + payload;
    EmptyIsFree(CERT_MARK);
    if |payload| < MSG_BUF_LEN {
      CertRoundTrip("", der, payload, MSG_BUF_LEN, CERT_DER_MAX);
    }
    assert "" + CertElement(der) + payload == CertElement(der) + payload;
    assert "" + payload == payload;
  }

  /**
   * Of the certificates the formatter embeds, only one of 4096 octets overruns the verifier: its last
   * group of three ends two octets past the buffer.  The signer's own buffer is too small for it.
   */
  lemma EmbeddedCertFits(der: octets, cap: nat)
    requires FormatCert(der, cap).Some?
    ensures (|der| + 2) / 3 * 3 <= CERT_DER_MAX <==> |der| != 4096
    ensures cap <= SD_WITH_CERT_MAX_LEN ==> |der| != CERT_DER_MAX
  {
    hide B64Encode;
    B64Length(der);
  }

  lemma LargestCertOverruns(r: Record, der: octets, payload: string, cap: nat)
    requires IsPrintable(r) && |der| == CERT_DER_MAX && cap > 5500 && |payload| < 2692
    ensures FormatCert(der, cap) == Some(CertElement(der))
    ensures ReadLine(RenderRecord(r) + CertElement(der) + payload) == Overrun
  {
    hide RenderRecord, IsShape, ReadLine, B64Encode;
    B64Length(der);
    CarriesWithCert(r, der, payload);
  }

  /** A signature of 145 to 150 octets passes the parser's length guard and overruns its field. */
  lemma LongSignatureOverruns(r: Record, payload: string)
    requires IsShape(r) && r.signature.Some? && |r.signature.value| > 144
    ensures |B64Encode(r.signature.value)| < B64_SIG_BUF
    ensures ReadLine(RenderRecord(r) + payload) == Overrun
  {
    hide RenderRecord, StripLine;
    B64Length(r.signature.value);
    StripCarried(r, payload);
  }

  lemma LongSignatureExists(payload: string)
    ensures ReadLine(RenderRecord(SigRecord(1, Zeros(HASH_LEN), 1, 1, Zeros(150))) + payload) == Overrun
  {
    hide RenderRecord, ReadLine, B64Encode;
    LongSignatureOverruns(SigRecord(1, Zeros(HASH_LEN), 1, 1, Zeros(150)), payload);
  }

  // ---------- Lines with and without a certificate ----------

  function CertText(cert: Option<octets>): string {
    match cert case Some(der) => CertElement(der) case None => ""
  }

  /** The verifier gets the payload back from a line that carries this certificate, or none. */
  ghost predicate Carried(cert: Option<octets>, payload: string) {
    match cert
    case Some(der) => |CertElement(der)| + |payload| < 8192 && (|der| + 2) / 3 * 3 <= 4096
    case None => |payload| < 8192 && !Contains(payload, CERT_MARK)
  }

  lemma LineCarries(r: Record, cert: Option<octets>, payload: string)
    requires IsPrintable(r)
    ensures var g := ReadLine(RenderRecord(r) + CertText(cert) + payload);
            && (g == Readable(Entry(r, payload), true) <==> Carried(cert, payload))
            && (g.Readable? ==> g.entry.record == r && |g.entry.payload| <= |payload|)
  {
    hide ReadLine, RenderRecord, IsPrintable, CertElement;
    match cert
    case Some(der) => CarriesWithCert(r, der, payload);
    case None =>
      CarriesExactly(r, payload);
      assert RenderRecord(r) + CertText(cert) == RenderRecord(r);
  }

  lemma FrontHasNoNewline(r: Record, cert: Option<octets>)
    requires IsPrintable(r)
    ensures var front := RenderRecord(r) + CertText(cert);
            front != "" && front[|front| - 1] == ']' && '\n' !in front
  {
    hide RenderRecord, CertElement;
    RecordHasNoNewline(r);
    if cert.Some? {
      CertHasNoNewline(cert.value);
    }
  }

  /** A file gives a signer's line back unchanged exactly when it would the payload. */
  lemma LineInFile(r: Record, cert: Option<octets>, payload: string)
    requires IsPrintable(r)
    ensures IsFileLine(RenderRecord(r) + CertText(cert) + payload) <==> IsFileLine(payload)
  {
    hide RenderRecord, CertText;
    var front := RenderRecord(r) + CertText(cert);
    FrontHasNoNewline(r, cert);
    var line := front + payload;
    assert payload != "" ==> line[|line| - 1] == payload[|payload| - 1];
    assert payload == "" ==> line == front;
    assert '\n' in line <==> '\n' in payload;
  }

  lemma RecordHasNoNewline(r: Record)
    requires IsPrintable(r)
    ensures '\n' !in RenderRecord(r)
    ensures var s := RenderRecord(r); s != "" && s[|s| - 1] == ']'
  {
    hide RenderBody, RecordParams, IsPrintable;
    ParamsHaveNoNewline(r);
    BodyHasNoNewline(RecordParams(r));
    NoNewlineInMarks();
    Bracketed(CHAIN_MARK, RenderBody(RecordParams(r)), "]");
  }

  lemma NoNewlineInMarks()
    ensures '\n' !in CHAIN_MARK && '\n' !in CERT_MARK && '\n' !in CERT_KEY
  {
  }

  lemma Bracketed(mark: string, body: string, close: string)
    requires '\n' !in mark && '\n' !in body && '\n' !in close && close != "" && close[|close| - 1] == ']'
    ensures var s := mark + body + close; '\n' !in s && s != "" && s[|s| - 1] == ']'
  {
  }

  lemma ParamsHaveNoNewline(r: Record)
    requires IsPrintable(r)
    ensures forall k :: 0 <= k < |RecordParams(r)| ==>
              '\n' !in RecordParams(r)[k].key && '\n' !in RecordParams(r)[k].value
  {
    hide Decimal, HexEncode, B64Encode;
    RecordParamsPlain(r);
    var ps := RecordParams(r);
    forall k | 0 <= k < |ps| ensures '\n' !in ps[k].key && '\n' !in ps[k].value {
      assert ps[k].key in ["t", "q", "h", "f", "qf", "qt", "s"];
    }
  }

  lemma {:induction false} BodyHasNoNewline(ps: seq<Param>)
    requires forall k :: 0 <= k < |ps| ==> '\n' !in ps[k].key && '\n' !in ps[k].value
    ensures '\n' !in RenderBody(ps)
  {
    if |ps| > 1 {
      BodyHasNoNewline(ps[1..]);
    }
  }

  lemma CertHasNoNewline(der: octets)
    ensures '\n' !in CertElement(der)
    ensures var s := CertElement(der); s != "" && s[|s| - 1] == ']'
  {
    hide B64Encode;
    B64RoundTrip(der);
    NoNewlineInMarks();
    NoNewlineJoined(CERT_KEY, B64Encode(der));
    Bracketed(CERT_MARK, CERT_KEY + B64Encode(der), "\"]");
  }

  lemma NoNewlineJoined(a: string, b: string)
    requires '\n' !in a && '\n' !in b
    ensures '\n' !in a + b
  {
  }
}

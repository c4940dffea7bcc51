/**
 * The chain-metadata record and its element, the certificate element, and the reading of a log
 * line: printing, parsing and stripping at the level of text.
 */
module SdRecords {
  import opened Wrappers
  import opened Octets
  import opened SdText
  import opened Crypto

  const SD_ID: string := "mmhashchainsigs@32473"
  const HDR_ID: string := "mmhashchainsigs-hdr@32473"
  const CERT_ID: string := "mmhashchainsigs-cert@32473"
  const CHAIN_MARK: string := "[mmhashchainsigs@32473 "
  const CERT_MARK: string := "[mmhashchainsigs-cert@32473 "
  const SD_MAX_LEN: nat := 512
  const SD_WITH_CERT_MAX_LEN: nat := 3584
  const CERT_DER_MAX: nat := 4096
  const SIG_MAX_LEN: nat := 144
  const B64_SIG_BUF: nat := 204

  datatype RecordType = MsgType | InitType | SigType | ContinueType | OtherType(code: char)

  datatype Record = Record(
    kind: RecordType, number: nat, hash: octets, fp: Option<octets>,
    sigFrom: nat, sigTo: nat, signature: Option<octets>)

  function InitRecord(number: nat, hash: octets, fp: octets): Record {
    Record(InitType, number, hash, Some(fp), 0, 0, None)
  }

  function MsgRecord(number: nat, hash: octets): Record {
    Record(MsgType, number, hash, None, 0, 0, None)
  }

  function SigRecord(number: nat, hash: octets, from: nat, to: nat, signature: octets): Record {
    Record(SigType, number, hash, None, from, to, Some(signature))
  }

  // ---------- Printing ----------

  /** The four printed shapes, with any signature whose base64 form the parser's buffer holds. */
  predicate IsShape(r: Record) {
    && r.number < TWO_64 && AlgFromHexLen(2 * |r.hash|).Some?
    && match r.kind
       case InitType | ContinueType =>
         r.fp.Some? && |r.fp.value| == HASH_LEN && r == r.(sigFrom := 0, sigTo := 0, signature := None)
       case MsgType => r == MsgRecord(r.number, r.hash)
       case SigType =>
         && r.fp.None? && r.sigFrom < TWO_64 && r.sigTo < TWO_64
         && r.signature.Some? && |r.signature.value| <= 150
       case OtherType(_) => false
  }

  /** The signature fits the record's own field. */
  predicate SigFits(r: Record) {
    r.signature.Some? ==> |r.signature.value| <= SIG_MAX_LEN
  }

  /** What the signer prints. */
  predicate IsPrintable(r: Record) {
    IsShape(r) && SigFits(r)
  }

  function OrEmpty(b: Option<octets>): octets {
    match b case Some(v) => v case None => []
  }

  function RecordParams(r: Record): seq<Param> {
    var q, h := Param("q", Decimal(r.number)), Param("h", HexEncode(r.hash));
    match r.kind
    case InitType => [Param("t", "I"), q, h, Param("f", HexEncode(OrEmpty(r.fp)))]
    case ContinueType => [Param("t", "C"), q, h, Param("f", HexEncode(OrEmpty(r.fp)))]
    case SigType => [Param("t", "S"), q, h, Param("qf", Decimal(r.sigFrom)), Param("qt", Decimal(r.sigTo)),
                     Param("s", B64Encode(OrEmpty(r.signature)))]
    case _ => [q, h]
  }

  function RenderRecord(r: Record): string {
    CHAIN_MARK + RenderBody(RecordParams(r)) + "]"
  }

  /** Fails when the hash, the encoded signature or the whole element does not fit its buffer. */
  function FormatRecord(r: Record, cap: nat): Option<string> {
    if |r.hash| > HASH_MAX_LEN then None
    else if r.signature.Some? && |B64Encode(r.signature.value)| >= B64_SIG_BUF then None
    else if |RenderRecord(r)| >= cap then None
    else Some(RenderRecord(r))
  }

  // ---------- Parsing ----------

  function KindOf(body: string): RecordType {
    match GetParam(body, "t", 0)
    case Some(v) =>
      if |v| != 1 then MsgType
      else if v[0] == '\0' then MsgType
      else if v[0] == 'I' then InitType
      else if v[0] == 'S' then SigType
      else if v[0] == 'C' then ContinueType
      else OtherType(v[0])
    case None => MsgType
  }

  /** The value read so far is kept even when trailing characters make the field an error. */
  function NumberField(body: string, key: string): (r: (bool, nat))
    ensures r.1 < TWO_64
  {
    match GetParam(body, key, 0)
    case None => (false, 0)
    case Some(v) =>
      if v == "" || |v| > 20 then (false, 0)
      else
        var (n, used) := Strtoull(v);
        (used == |v| || v[used] == '\0', n)
  }

  function HashField(body: string): (r: Option<octets>)
    ensures r.Some? ==> AlgFromHexLen(2 * |r.value|).Some?
  {
    match GetParam(body, "h", 0)
    case None => None
    case Some(v) => if AlgFromHexLen(|v|).None? then None else HexDecode(v)
  }

  function FpField(body: string): (r: Option<octets>)
    ensures r.Some? ==> |r.value| == HASH_LEN
  {
    match GetParam(body, "f", 0)
    case None => None
    case Some(v) => if |v| != 2 * HASH_LEN then None else HexDecode(v)
  }

  datatype SignatureField = Absent | Present(signature: octets) | Malformed | Overlong

  /** A text the length guard admits may still decode to more octets than the field has room for. */
  function SigField(body: string): SignatureField {
    match GetParam(body, "s", 0)
    case None => Absent
    case Some(v) =>
      if |v| >= B64_SIG_BUF then Malformed
      else if B64Written(v) > SIG_MAX_LEN then Overlong
      else match B64Decode(v) case Some(s) => Present(s) case None => Malformed
  }

  /** `ParseOverrun`: the decoder writes past the signature field, and nothing more can be said. */
  datatype Parse = ParseRefused | ParseOverrun | Parsed(record: Record)

  function ParseBody(body: string): Parse {
    var q := NumberField(body, "q");
    var h := HashField(body);
    var s := SigField(body);
    if !q.0 || h.None? || s.Malformed? then ParseRefused
    else if s.Overlong? then ParseOverrun
    else Parsed(Record(KindOf(body), q.1, h.value, FpField(body),
                       NumberField(body, "qf").1, NumberField(body, "qt").1,
                       if s.Present? then Some(s.signature) else None))
  }

  function ParseSd(sd: string): Parse {
    var n := |CHAIN_MARK|;
    if |sd| < n + 1 || !At(sd, 0, CHAIN_MARK) || sd[|sd| - 1] != ']' then ParseRefused
    else ParseBody(sd[n..|sd| - 1])
  }

  /** What a number parameter says: nothing, or a value and whether it is a number to its end. */
  ghost predicate SaysNumber(body: string, key: string, n: nat, whole: bool) {
    match GetParam(body, key, 0)
    case None => n == 0 && !whole
    case Some(v) =>
      if 1 <= |v| <= 20 then
        n == Strtoull(v).0 && (whole <==> Strtoull(v).1 == |v| || v[Strtoull(v).1] == '\0')
      else n == 0 && !whole
  }

  /**
   * What the parser takes from an element: the type is one letter or a message, the number must be whole,
   * the hash must have a width of the three algorithms, the range is taken even when it is not whole, a
   * fingerprint that does not decode is absent, and a signature must decode when it is there.
   */
  lemma ParsesExactly(body: string, r: Record)
    ensures ParseBody(body) == Parsed(r) <==>
              && (match GetParam(body, "t", 0)
                  case Some(t) =>
                    if |t| != 1 || t == "\0" then r.kind == MsgType
                    else if t == "I" then r.kind == InitType
                    else if t == "S" then r.kind == SigType
                    else if t == "C" then r.kind == ContinueType
                    else r.kind == OtherType(t[0])
                  case None => r.kind == MsgType)
              && SaysNumber(body, "q", r.number, true)
              && (match GetParam(body, "h", 0)
                  case Some(v) => |v| in {64, 96, 128} && HexDecode(v) == Some(r.hash)
                  case None => false)
              && r.fp == (match GetParam(body, "f", 0)
                          case Some(v) => if |v| == 64 then HexDecode(v) else None
                          case None => None)
              && (exists whole :: SaysNumber(body, "qf", r.sigFrom, whole))
              && (exists whole :: SaysNumber(body, "qt", r.sigTo, whole))
              && (match GetParam(body, "s", 0)
                  case Some(v) =>
                    |v| < 204 && B64Written(v) <= 144 && r.signature.Some? && B64Decode(v) == r.signature
                  case None => r.signature == None)
  {
    hide GetParam, Strtoull, HexDecode, B64Decode, B64Written;
    NumberSays(body, "q");
    NumberSays(body, "qf");
    NumberSays(body, "qt");
    forall v | |v| == 1 ensures (v == "I" <==> v[0] == 'I') && (v == "S" <==> v[0] == 'S')
      && (v == "C" <==> v[0] == 'C') && (v == "\0" <==> v[0] == '\0') {
      assert v == [v[0]];
    }
  }

  lemma NumberSays(body: string, key: string)
    ensures forall n: nat, whole :: SaysNumber(body, key, n, whole) <==> NumberField(body, key) == (whole, n)
  {
    hide GetParam, Strtoull;
  }

  // ---------- Reading a line ----------

  datatype Strip = NotStripped | StripOverrun | Stripped(msg: string, record: Record)

  /** The line without its first chain element, and that element's record, when no bracket follows the line. */
  function StripLine(line: string, cap: nat): (r: Strip)
    ensures r.Stripped? ==> |r.msg| < cap
  {
    match Find(line, CHAIN_MARK, 0)
    case None => NotStripped
    case Some(start) =>
      match ScanElement(line, start + |CHAIN_MARK|)
      case None => NotStripped
      case Some(end) =>
        match ParseSd(line[start..end])
        case ParseRefused => NotStripped
        case ParseOverrun => StripOverrun
        case Parsed(record) =>
          var msg := line[..start] + line[end..];
          if |msg| >= cap then NotStripped else Stripped(msg, record)
  }

  /**
   * The same for a line that is followed in memory by the character `behind`.  When the first element
   * ends inside an open quote the scan stops one past the line, so a closing bracket there completes
   * the element; the rest of the line then has the length -1, taken modulo 2^64.
   */
  function StripLineBefore(line: string, behind: char, cap: nat): (r: Strip)
    ensures r.Stripped? ==> |r.msg| < cap
  {
    match Find(line, CHAIN_MARK, 0)
    case None => NotStripped
    case Some(start) =>
      if behind != ']' || !OpenQuote(line, start + |CHAIN_MARK|) then StripLine(line, cap)
      else
        match ParseSd(line[start..] + [behind])
        case ParseRefused => NotStripped
        case ParseOverrun => StripOverrun
        case Parsed(_) => if (start - 1) % TWO_64 >= cap then NotStripped else StripOverrun
  }

  /** `CertOverrun`: the decoder writes past the destination, and nothing more can be said. */
  datatype CertResult = NoCert | Cert(der: octets, rest: string) | BadCert | CertOverrun

  const CERT_KEY: string := "cert=\""

  /** Where the value of the first certificate element starts and ends, if that element is well made. */
  function CertSlot(src: string, start: nat): (r: Option<(nat, nat)>)
    ensures r.Some? ==> start < r.value.0 <= r.value.1 && r.value.1 + 2 <= |src|
  {
    var p := start + |CERT_MARK|;
    var v := p + |CERT_KEY|;
    if v >= |src| || !At(src, p, CERT_KEY) then None
    else
      var q := QuotedEnd(src, v);
      if q + 1 >= |src| || src[q + 1] != ']' then None else Some((v, q))
  }

  /** Removes the first certificate element and decodes it into `derCap` octets, which are not measured. */
  function ExtractCert(src: string, cap: nat, derCap: nat): (r: CertResult)
    ensures r.Cert? ==> |r.rest| < |src|
  {
    match Find(src, CERT_MARK, 0)
    case None => if |src| >= cap then BadCert else NoCert
    case Some(start) =>
      match CertSlot(src, start)
      case None => BadCert
      case Some((v, q)) =>
        if B64Written(src[v..q]) > derCap then CertOverrun
        else
          match B64Decode(src[v..q])
          case None => BadCert
          case Some(der) =>
            var rest := src[..start] + src[q + 2..];
            if |rest| >= cap then BadCert else Cert(der, rest)
  }

  function CertElement(der: octets): string {
    CERT_MARK + (CERT_KEY + B64Encode(der)) + "\"]"
  }

  function FormatCert(der: octets, cap: nat): Option<string> {
    if |der| > CERT_DER_MAX || |CertElement(der)| >= cap then None else Some(CertElement(der))
  }

  // ---------- Printing then parsing ----------

  lemma ChainMarkIsMarker()
    ensures IsMarker(CHAIN_MARK) && CHAIN_MARK == "[" + SD_ID + " "
  {
  }

  lemma CertMarkIsMarker()
    ensures IsMarker(CERT_MARK) && CERT_MARK == "[" + CERT_ID + " "
  {
  }

  lemma NumberPrinted(body: string, key: string, n: nat)
    requires n < TWO_64 && GetParam(body, key, 0) == Some(Decimal(n))
    ensures NumberField(body, key) == (true, n)
  {
    DecimalFits(n);
    DecimalRoundTrip(n, "");
    assert Decimal(n) + "" == Decimal(n);
  }

  lemma HashPrinted(body: string, hash: octets)
    requires AlgFromHexLen(2 * |hash|).Some? && GetParam(body, "h", 0) == Some(HexEncode(hash))
    ensures HashField(body) == Some(hash)
  {
    HexRoundTrip(hash);
  }

  lemma FpPrinted(body: string, fp: octets)
    requires |fp| == HASH_LEN && GetParam(body, "f", 0) == Some(HexEncode(fp))
    ensures FpField(body) == Some(fp)
  {
    HexRoundTrip(fp);
  }

  lemma SigPrinted(body: string, signature: octets)
    requires |signature| <= 150 && GetParam(body, "s", 0) == Some(B64Encode(signature))
    ensures SigField(body) == if |signature| <= SIG_MAX_LEN then Present(signature) else Overlong
  {
    hide B64Encode, B64Decode, B64Written;
    B64RoundTrip(signature);
    B64Length(signature);
    WrittenEncoded(signature);
  }

  lemma PlainParam(p: Param)
    requires IsName(p.key) && IsPlain(p.value)
    ensures IsParam(p)
  {
    PlainIsClosed(p.value);
  }

  lemma PlainValues(r: Record)
    requires IsShape(r)
    ensures IsPlain(Decimal(r.number)) && IsPlain(HexEncode(r.hash)) && IsPlain(HexEncode(OrEmpty(r.fp)))
    ensures IsPlain(B64Encode(OrEmpty(r.signature)))
    ensures IsPlain(Decimal(r.sigFrom)) && IsPlain(Decimal(r.sigTo))
  {
    DecimalFits(r.number);
    DecimalFits(r.sigFrom);
    DecimalFits(r.sigTo);
    HexRoundTrip(r.hash);
    HexRoundTrip(OrEmpty(r.fp));
    B64RoundTrip(OrEmpty(r.signature));
  }

  /** Names and printed values contain nothing that could end them early. */
  lemma RecordParamsPlain(r: Record)
    requires IsShape(r)
    ensures AreParams(RecordParams(r))
    ensures forall k :: 0 <= k < |RecordParams(r)| ==> IsPlain(RecordParams(r)[k].value)
  {
    PlainValues(r);
    var ps := RecordParams(r);
    forall k | 0 <= k < |ps| ensures IsPlain(ps[k].value) && IsParam(ps[k]) {
      assert ps[k].key in ["t", "q", "h", "f", "qf", "qt", "s"];
      assert IsName(ps[k].key);
      PlainParam(ps[k]);
    }
  }

  lemma {:induction false} LookupAt(ps: seq<Param>, k: nat)
    requires k < |ps| && forall i :: 0 <= i < k ==> ps[i].key != ps[k].key
    ensures Lookup(ps, ps[k].key) == Some(ps[k].value)
  {
    if k > 0 {
      assert ps[0].key != ps[k].key;
      LookupAt(ps[1..], k - 1);
    }
  }

  lemma {:induction false} LookupNone(ps: seq<Param>, key: string)
    requires forall i :: 0 <= i < |ps| ==> ps[i].key != key
    ensures Lookup(ps, key) == None
  {
    if ps != [] {
      LookupNone(ps[1..], key);
    }
  }

  predicate Says(body: string, key: string, value: Option<string>) {
    GetParam(body, key, 0) == value
  }

  lemma ParsePrintedFp(r: Record, body: string, t: string)
    requires IsShape(r) && r.fp.Some?
    requires (r.kind == InitType && t == "I") || (r.kind == ContinueType && t == "C")
    requires Says(body, "t", Some(t)) && Says(body, "q", Some(Decimal(r.number)))
    requires Says(body, "h", Some(HexEncode(r.hash))) && Says(body, "f", Some(HexEncode(r.fp.value)))
    requires Says(body, "qf", None) && Says(body, "qt", None) && Says(body, "s", None)
    ensures ParseBody(body) == Parsed(r)
  {
    hide HexDecode, HexEncode, Strtoull, Decimal, GetParam, B64Encode;
    NumberPrinted(body, "q", r.number);
    HashPrinted(body, r.hash);
    FpPrinted(body, r.fp.value);
  }

  lemma ParsePrintedMsg(r: Record, body: string)
    requires IsShape(r) && r.kind == MsgType
    requires Says(body, "t", None) && Says(body, "q", Some(Decimal(r.number)))
    requires Says(body, "h", Some(HexEncode(r.hash))) && Says(body, "f", None)
    requires Says(body, "qf", None) && Says(body, "qt", None) && Says(body, "s", None)
    ensures ParseBody(body) == Parsed(r)
  {
    hide HexDecode, HexEncode, Strtoull, Decimal, GetParam, B64Encode;
    NumberPrinted(body, "q", r.number);
    HashPrinted(body, r.hash);
  }

  lemma ParsePrintedSig(r: Record, body: string)
    requires IsShape(r) && r.kind == SigType && r.signature.Some?
    requires Says(body, "t", Some("S")) && Says(body, "q", Some(Decimal(r.number)))
    requires Says(body, "h", Some(HexEncode(r.hash))) && Says(body, "f", None)
    requires Says(body, "qf", Some(Decimal(r.sigFrom))) && Says(body, "qt", Some(Decimal(r.sigTo)))
    requires Says(body, "s", Some(B64Encode(r.signature.value)))
    ensures ParseBody(body) == if SigFits(r) then Parsed(r) else ParseOverrun
  {
    hide HexDecode, HexEncode, Strtoull, Decimal, GetParam, B64Encode;
    NumberPrinted(body, "q", r.number);
    NumberPrinted(body, "qf", r.sigFrom);
    NumberPrinted(body, "qt", r.sigTo);
    HashPrinted(body, r.hash);
    SigPrinted(body, r.signature.value);
  }

  lemma SaysValue(r: Record, k: nat)
    requires IsShape(r) && k < |RecordParams(r)|
    requires forall i :: 0 <= i < k ==> RecordParams(r)[i].key != RecordParams(r)[k].key
    ensures Says(RenderBody(RecordParams(r)), RecordParams(r)[k].key, Some(RecordParams(r)[k].value))
  {
    var ps := RecordParams(r);
    RecordParamsPlain(r);
    GetParamRendered(RenderBody(ps), 0, ps, ps[k].key);
    LookupAt(ps, k);
  }

  lemma SaysNothing(r: Record, key: string)
    requires IsShape(r) && IsName(key)
    requires forall i :: 0 <= i < |RecordParams(r)| ==> RecordParams(r)[i].key != key
    ensures Says(RenderBody(RecordParams(r)), key, None)
  {
    var ps := RecordParams(r);
    RecordParamsPlain(r);
    GetParamRendered(RenderBody(ps), 0, ps, key);
    LookupNone(ps, key);
  }

  /**
   * For each of the four shapes, parsing the printed element recovers every field, present or
   * absent; only a signature longer than its field, which no signer prints, overruns it.
   */
  lemma ParseRendered(r: Record)
    requires IsShape(r)
    ensures ParseBody(RenderBody(RecordParams(r))) == if SigFits(r) then Parsed(r) else ParseOverrun
  {
    var body := RenderBody(RecordParams(r));
    if r.kind == MsgType {
      SaysMsg(r);
      ParsePrintedMsg(r, body);
    } else if r.kind == SigType {
      SaysSig(r);
      ParsePrintedSig(r, body);
    } else {
      SaysFp(r);
      ParsePrintedFp(r, body, if r.kind == InitType then "I" else "C");
    }
  }

  lemma SaysMsg(r: Record)
    requires IsShape(r) && r.kind == MsgType
    ensures var body := RenderBody(RecordParams(r));
            && Says(body, "t", None) && Says(body, "q", Some(Decimal(r.number)))
            && Says(body, "h", Some(HexEncode(r.hash))) && Says(body, "f", None)
            && Says(body, "qf", None) && Says(body, "qt", None) && Says(body, "s", None)
  {
    hide IsShape, Says, RenderBody, Decimal, HexEncode, B64Encode;
    SaysValue(r, 0);
    SaysValue(r, 1);
    SaysNothing(r, "t");
    SaysNothing(r, "f");
    SaysNothing(r, "qf");
    SaysNothing(r, "qt");
    SaysNothing(r, "s");
  }

  lemma SaysFp(r: Record)
    requires IsShape(r) && r.kind in {InitType, ContinueType}
    ensures var body := RenderBody(RecordParams(r));
            && Says(body, "t", Some(if r.kind == InitType then "I" else "C"))
            && Says(body, "q", Some(Decimal(r.number)))
            && Says(body, "h", Some(HexEncode(r.hash))) && Says(body, "f", Some(HexEncode(OrEmpty(r.fp))))
            && Says(body, "qf", None) && Says(body, "qt", None) && Says(body, "s", None)
  {
    hide IsShape, Says, RenderBody, Decimal, HexEncode, B64Encode;
    SaysValue(r, 0);
    SaysValue(r, 1);
    SaysValue(r, 2);
    SaysValue(r, 3);
    SaysNothing(r, "qf");
    SaysNothing(r, "qt");
    SaysNothing(r, "s");
  }

  lemma SaysSig(r: Record)
    requires IsShape(r) && r.kind == SigType
    ensures var body := RenderBody(RecordParams(r));
            && Says(body, "t", Some("S")) && Says(body, "q", Some(Decimal(r.number)))
            && Says(body, "h", Some(HexEncode(r.hash))) && Says(body, "f", None)
            && Says(body, "qf", Some(Decimal(r.sigFrom))) && Says(body, "qt", Some(Decimal(r.sigTo)))
            && Says(body, "s", Some(B64Encode(OrEmpty(r.signature))))
  {
    hide IsShape, Says, RenderBody, Decimal, HexEncode, B64Encode;
    SaysValue(r, 0);
    SaysValue(r, 1);
    SaysValue(r, 2);
    SaysValue(r, 3);
    SaysValue(r, 4);
    SaysValue(r, 5);
    SaysNothing(r, "f");
  }

  // ---------- Stripping a printed element from a line ----------

  /** Where the pieces of an element stand in the line that carries it. */
  lemma ElementAt(line: string, before: string, mark: string, body: string, close: string, after: string)
    requires line == before + (mark + body + close) + after
    ensures var (i, j) := (|before|, |before| + |mark|);
            At(line, i, mark) && At(line, j, body) && At(line, j + |body|, close)
  {
    hide At;
    var i, element := |before|, mark + body + close;
    assert At(line, i, element) by {
      AtParts(before, element, after);
    }
    assert At(line, i, mark + body) && At(line, i + |mark| + |body|, close) by {
      AtConcat(line, i, mark + body, close);
      assert i + |mark + body| == i + |mark| + |body|;
    }
    AtConcat(line, i, mark, body);
  }

  lemma FindElement(line: string, before: string, mark: string, tail: string, after: string)
    requires IsMarker(mark) && !Contains(before, mark) && line == before + (mark + tail) + after
    ensures Find(line, mark, 0) == Some(|before|)
  {
    FindAfter(before, mark, tail + after);
    assert line == before + mark + (tail + after);
  }

  lemma ParseSdRendered(r: Record)
    requires IsShape(r)
    ensures ParseSd(RenderRecord(r)) == if SigFits(r) then Parsed(r) else ParseOverrun
  {
    var sd, n := RenderRecord(r), |CHAIN_MARK|;
    ParseRendered(r);
    assert sd[n..|sd| - 1] == RenderBody(RecordParams(r));
    assert At(sd, 0, CHAIN_MARK);
  }

  /** The scanner started inside a printed element stops exactly at its end. */
  lemma ScanPrinted(line: string, before: string, r: Record, after: string)
    requires IsShape(r) && line == before + RenderRecord(r) + after
    ensures ScanElement(line, |before| + |CHAIN_MARK|) == Some(|before| + |RenderRecord(r)|)
  {
    hide At, ScanElement, RenderBody, RecordParams, IsShape;
    var body := RenderBody(RecordParams(r));
    ElementAt(line, before, CHAIN_MARK, body, "]", after);
    assert "]"[0] == ']';
    assert AreParams(RecordParams(r)) by { RecordParamsPlain(r); }
    ScanRendered(line, |before| + |CHAIN_MARK|, RecordParams(r));
  }

  /**
   * The line round trip: stripping `before ++ element ++ after` gives back `before ++ after` and
   * exactly the record that was printed, when the signature fits its field and the rest the buffer.
   */
  lemma LineRoundTrip(before: string, r: Record, after: string, cap: nat)
    requires IsShape(r) && !Contains(before, CHAIN_MARK)
    ensures StripLine(before + RenderRecord(r) + after, cap) ==
            if !SigFits(r) then StripOverrun
            else if |before| + |after| < cap then Stripped(before + after, r)
            else NotStripped
  {
    hide ParseSd, ScanElement, Find, RenderRecord;
    var line := before + RenderRecord(r) + after;
    FindPrinted(line, before, r, after);
    ScanPrinted(line, before, r, after);
    ParseSdRendered(r);
    Around(line, before, RenderRecord(r), after);
    StripFound(line, cap, |before|, |before| + |RenderRecord(r)|);
  }

  lemma FindPrinted(line: string, before: string, r: Record, after: string)
    requires line == before + RenderRecord(r) + after && !Contains(before, CHAIN_MARK)
    ensures Find(line, CHAIN_MARK, 0) == Some(|before|)
  {
    hide At, Find, Contains, IsMarker, RenderBody, RecordParams;
    var tail := RenderBody(RecordParams(r)) + "]";
    ChainMarkIsMarker();
    assert RenderRecord(r) == CHAIN_MARK + tail;
    FindElement(line, before, CHAIN_MARK, tail, after);
  }

  lemma StripFound(line: string, cap: nat, start: nat, end: nat)
    requires Find(line, CHAIN_MARK, 0) == Some(start) && ScanElement(line, start + |CHAIN_MARK|) == Some(end)
    ensures StripLine(line, cap) ==
            match ParseSd(line[start..end])
            case ParseRefused => NotStripped
            case ParseOverrun => StripOverrun
            case Parsed(r) =>
              if |line| - (end - start) < cap then Stripped(line[..start] + line[end..], r) else NotStripped
  {
  }

  /**
   * The certificate element survives a round trip, and its removal restores the text around it,
   * exactly when the destination has room for the decoded groups: the source copies its capacity
   * but never tests it.
   */
  lemma CertRoundTrip(before: string, der: octets, after: string, cap: nat, derCap: nat)
    requires !Contains(before, CERT_MARK) && |before| + |after| < cap
    ensures ExtractCert(before + CertElement(der) + after, cap, derCap) ==
            if (|der| + 2) / 3 * 3 <= derCap then Cert(der, before + after) else CertOverrun
  {
    hide ExtractCert, Find, CertAt, CertElement, Contains;
    var src := before + CertElement(der) + after;
    FindCert(src, before, der, after);
    CertValue(src, before, der, after);
    Around(src, before, CertElement(der), after);
    CertFound(src, cap, derCap, |before|, |before| + |CertElement(der)|, der);
  }

  lemma FindCert(src: string, before: string, der: octets, after: string)
    requires src == before + CertElement(der) + after && !Contains(before, CERT_MARK)
    ensures Find(src, CERT_MARK, 0) == Some(|before|)
  {
    hide At, Find, Contains, IsMarker, B64Encode;
    var tail := CERT_KEY + B64Encode(der) + "\"]";
    CertMarkIsMarker();
    assert CertElement(der) == CERT_MARK + tail;
    FindElement(src, before, CERT_MARK, tail, after);
  }

  /** The value of the certificate parameter at `v` ends just before `end`. */
  predicate CertAt(src: string, p: nat, end: nat, der: octets) {
    var v := p + |CERT_KEY|;
    && v + 2 <= end <= |src|
    && At(src, p, CERT_KEY) && QuotedEnd(src, v) == end - 2 && src[end - 1] == ']'
    && B64Decode(src[v..end - 2]) == Some(der) && B64Written(src[v..end - 2]) == (|der| + 2) / 3 * 3
  }

  lemma SlotFound(src: string, start: nat, end: nat, der: octets)
    requires CertAt(src, start + |CERT_MARK|, end, der)
    ensures var v := start + |CERT_MARK| + |CERT_KEY|;
            && CertSlot(src, start) == Some((v, end - 2)) && v + 2 <= end <= |src|
            && B64Decode(src[v..end - 2]) == Some(der) && B64Written(src[v..end - 2]) == (|der| + 2) / 3 * 3
  {
    hide At, QuotedEnd, B64Decode, B64Written;
  }

  lemma CertFound(src: string, cap: nat, derCap: nat, start: nat, end: nat, der: octets)
    requires Find(src, CERT_MARK, 0) == Some(start) && CertAt(src, start + |CERT_MARK|, end, der)
    requires |src| - (end - start) < cap
    ensures ExtractCert(src, cap, derCap) ==
            if (|der| + 2) / 3 * 3 <= derCap then Cert(der, src[..start] + src[end..]) else CertOverrun
  {
    hide At, Find, CertAt, CertSlot, B64Decode, B64Written;
    SlotFound(src, start, end, der);
  }

  lemma CertValue(src: string, before: string, der: octets, after: string)
    requires src == before + CertElement(der) + after
    ensures CertAt(src, |before| + |CERT_MARK|, |before| + |CertElement(der)|, der)
  {
    hide At, CertAt, B64Encode;
    ElementAt(src, before, CERT_MARK, CERT_KEY + B64Encode(der), "\"]", after);
    CertValueAt(src, |before| + |CERT_MARK|, der);
  }

  lemma CertValueAt(src: string, p: nat, der: octets)
    requires At(src, p, CERT_KEY + B64Encode(der)) && At(src, p + |CERT_KEY + B64Encode(der)|, "\"]")
    ensures CertAt(src, p, p + |CERT_KEY + B64Encode(der)| + 2, der)
  {
    hide B64Decode, B64Encode, B64Written, QuotedEnd, IsClosed, IsPlain;
    WrittenEncoded(der);
    var b64 := B64Encode(der);
    var v := p + |CERT_KEY|;
    var q := v + |b64|;
    assert B64Decode(b64) == Some(der) && IsClosed(b64) by {
      B64RoundTrip(der);
      PlainIsClosed(b64);
    }
    AtConcat(src, p, CERT_KEY, b64);
    assert src[q + 0] == '"' && src[q + 1] == ']' by {
      assert "\"]"[0] == '"' && "\"]"[1] == ']';
    }
    QuotedEndClosed(src, v, b64);
    AtSlice(src, v, b64);
  }

  /** Text free of the certificate mark is left alone. */
  lemma NoCertToExtract(src: string, cap: nat, derCap: nat)
    ensures ExtractCert(src, cap, derCap) == NoCert <==> |src| < cap && !Contains(src, CERT_MARK)
  {
  }

  // ---------- Stripping arbitrary lines ----------

  /** `element` is the first chain element of the line, up to the bracket where the scanner stops. */
  ghost predicate IsFirstElement(line: string, before: string, element: string, after: string) {
    && line == before + element + after && Find(line, CHAIN_MARK, 0) == Some(|before|)
    && ScanElement(line, |before| + |CHAIN_MARK|) == Some(|before| + |element|)
  }

  lemma FirstElementParts(line: string, before: string, element: string, after: string)
    requires IsFirstElement(line, before, element, after)
    ensures line[..|before|] == before && line[|before|..|before| + |element|] == element
    ensures line[|before| + |element|..] == after
  {
    Around(line, before, element, after);
  }

  /**
   * On every line the stripper removes exactly one element and nothing else: it succeeds if and only
   * if the first chain element closes, parses as the record reported, and leaves a text that fits.
   */
  lemma StripIsRemoval(line: string, cap: nat, msg: string, r: Record)
    ensures StripLine(line, cap) == Stripped(msg, r) <==>
              |msg| < cap && exists before, element, after ::
                IsFirstElement(line, before, element, after) && ParseSd(element) == Parsed(r) && msg == before + after
    ensures StripLine(line, cap) == StripOverrun <==>
              exists before, element, after ::
                IsFirstElement(line, before, element, after) && ParseSd(element) == ParseOverrun
  {
    hide ParseSd, Find, ScanElement;
    var found := Find(line, CHAIN_MARK, 0);
    if found.Some? && ScanElement(line, found.value + |CHAIN_MARK|).Some? {
      var start, end := found.value, ScanElement(line, found.value + |CHAIN_MARK|).value;
      var (before, element, after) := (line[..start], line[start..end], line[end..]);
      assert before + element + after == line;
      assert IsFirstElement(line, before, element, after);
    }
    forall before, element, after | IsFirstElement(line, before, element, after)
      ensures var s := StripLine(line, cap);
              && (ParseSd(element) == Parsed(r) && |before + after| < cap ==> s == Stripped(before + after, r))
              && (ParseSd(element) == ParseOverrun ==> s == StripOverrun)
    {
      FirstElementStrips(line, cap, before, element, after);
    }
  }

  lemma FirstElementStrips(line: string, cap: nat, before: string, element: string, after: string)
    requires IsFirstElement(line, before, element, after)
    ensures StripLine(line, cap) ==
            match ParseSd(element)
            case ParseRefused => NotStripped
            case ParseOverrun => StripOverrun
            case Parsed(r) => if |before + after| < cap then Stripped(before + after, r) else NotStripped
  {
    hide ParseSd, Find, ScanElement, StripLine;
    FirstElementParts(line, before, element, after);
    StripFound(line, cap, |before|, |before| + |element|);
  }

  /** `value` is the parameter of the first certificate element of the text. */
  ghost predicate IsFirstCert(src: string, before: string, value: string, after: string) {
    && src == before + (CERT_MARK + (CERT_KEY + value) + "\"]") + after
    && Find(src, CERT_MARK, 0) == Some(|before|) && IsClosed(value)
  }

  /**
   * On every text the certificate stripper removes exactly one element, if and only if the first one
   * is well made, decodes within its destination, and leaves a text that fits; its absence and an
   * overrun are reported exactly when they are the case, and everything else is malformed.
   */
  lemma ExtractIsRemoval(src: string, cap: nat, derCap: nat, der: octets, rest: string)
    ensures ExtractCert(src, cap, derCap) == NoCert <==> |src| < cap && !Contains(src, CERT_MARK)
    ensures ExtractCert(src, cap, derCap) == Cert(der, rest) <==>
              |rest| < cap && exists before, value, after ::
                && IsFirstCert(src, before, value, after) && B64Written(value) <= derCap
                && B64Decode(value) == Some(der) && rest == before + after
    ensures ExtractCert(src, cap, derCap) == CertOverrun <==>
              exists before, value, after :: IsFirstCert(src, before, value, after) && B64Written(value) > derCap
  {
    hide B64Decode, B64Written, QuotedEnd, Find, CertSlot, IsClosed;
    NoCertToExtract(src, cap, derCap);
    var found := Find(src, CERT_MARK, 0);
    if found.Some? && CertSlot(src, found.value).Some? {
      SlotIsFirstCert(src, found.value);
    }
    forall before, value, after | IsFirstCert(src, before, value, after)
      ensures var r := ExtractCert(src, cap, derCap);
              && (B64Written(value) > derCap ==> r == CertOverrun)
              && (B64Written(value) <= derCap && B64Decode(value) == Some(der) && |before + after| < cap ==>
                   r == Cert(der, before + after))
    {
      FirstCertIsSlot(src, before, value, after);
    }
  }

  lemma SlotIsFirstCert(src: string, start: nat)
    requires Find(src, CERT_MARK, 0) == Some(start) && CertSlot(src, start).Some?
    ensures var (v, q) := CertSlot(src, start).value;
            IsFirstCert(src, src[..start], src[v..q], src[q + 2..])
  {
    hide Find, IsClosed;
    var (v, q) := CertSlot(src, start).value;
    FoundAt(src, CERT_MARK, start);
    CertPieces(src, start, start + |CERT_MARK|, v, q);
    QuotedEndIsClosed(src, v);
  }

  lemma FoundAt(s: string, mark: string, i: nat)
    requires Find(s, mark, 0) == Some(i)
    ensures At(s, i, mark)
  {
  }

  lemma {:induction false} QuotedEndIsClosed(s: string, i: nat)
    requires i <= |s| && QuotedEnd(s, i) < |s|
    ensures IsClosed(s[i..QuotedEnd(s, i)])
    decreases |s| - i
  {
    var q := QuotedEnd(s, i);
    if s[i] != '"' {
      var k := if s[i] == '\\' then 2 else 1;
      QuotedEndIsClosed(s, i + k);
      assert s[i..q][k..] == s[i + k..q];
    }
  }

  lemma FirstCertIsSlot(src: string, before: string, value: string, after: string)
    requires IsFirstCert(src, before, value, after)
    ensures var (v, q) := (|before| + |CERT_MARK| + |CERT_KEY|, |before| + |CERT_MARK| + |CERT_KEY| + |value|);
            && CertSlot(src, |before|) == Some((v, q))
            && src[v..q] == value && src[..|before|] == before && src[q + 2..] == after
  {
    hide Find, IsClosed, QuotedEnd, At;
    var element := CERT_MARK + (CERT_KEY + value) + "\"]";
    var v := |before| + |CERT_MARK| + |CERT_KEY|;
    var q := v + |value|;
    ElementAt(src, before, CERT_MARK, CERT_KEY + value, "\"]", after);
    Around(src, before, element, after);
    AtConcat(src, |before| + |CERT_MARK|, CERT_KEY, value);
    CloseAt(src, q);
    QuotedEndClosed(src, v, value);
    AtSlice(src, v, value);
    assert src[v..q] == value by { SliceAt(src, v, value); }
  }

  lemma CloseAt(src: string, q: nat)
    requires At(src, q, "\"]")
    ensures q + 2 <= |src| && src[q] == '"' && src[q + 1] == ']'
  {
    assert "\"]"[0] == '"' && "\"]"[1] == ']';
    assert src[q + 0] == '"';
  }

  lemma SliceAt(s: string, i: nat, t: string)
    requires At(s, i, t)
    ensures s[i..i + |t|] == t
  {
    AtSlice(s, i, t);
  }

  lemma CertPieces(src: string, start: nat, p: nat, v: nat, q: nat)
    requires At(src, start, CERT_MARK) && p == start + |CERT_MARK| && At(src, p, CERT_KEY) && v == p + |CERT_KEY|
    requires v <= q && q + 1 < |src| && src[q] == '"' && src[q + 1] == ']'
    ensures src == src[..start] + (CERT_MARK + (CERT_KEY + src[v..q]) + "\"]") + src[q + 2..]
  {
    AtSlice(src, start, CERT_MARK);
    AtSlice(src, p, CERT_KEY);
    assert src[q..q + 2] == "\"]";
    Rejoin(src, start, p, v, q);
  }

  lemma Rejoin(s: string, a: nat, b: nat, c: nat, d: nat)
    requires a <= b <= c <= d && d + 2 <= |s|
    ensures s == s[..a] + (s[a..b] + (s[b..c] + s[c..d]) + s[d..d + 2]) + s[d + 2..]
  {
  }

  // ---------- Sizes ----------

  /** No chain element is longer than 436 characters, so none fails to fit its 512-byte buffer. */
  lemma FormatNeverFails(r: Record, cap: nat)
    requires IsPrintable(r) && cap >= SD_MAX_LEN
    ensures |RenderRecord(r)| <= 436
    ensures FormatRecord(r, cap) == Some(RenderRecord(r))
  {
    hide Decimal, B64Encode, HexEncode, RenderBody;
    DecimalFits(r.number);
    DecimalFits(r.sigFrom);
    DecimalFits(r.sigTo);
    B64Length(OrEmpty(r.signature));
    assert |B64Encode(OrEmpty(r.signature))| <= 192;
    BodyLength(r);
  }

  lemma BodyLength(r: Record)
    requires IsShape(r)
    ensures var ps := RecordParams(r);
            var n := |RenderBody(ps)|;
            match r.kind
            case MsgType => n == |ps[0].value| + |ps[1].value| + 9
            case SigType =>
              n == |ps[0].value| + |ps[1].value| + |ps[2].value| + |ps[3].value| + |ps[4].value| + |ps[5].value| + 31
            case _ => n == |ps[0].value| + |ps[1].value| + |ps[2].value| + |ps[3].value| + 19
  {
    var ps := RecordParams(r);
    assert RenderBody(ps[|ps| - 1..]) == RenderParam(ps[|ps| - 1]);
    BodyCons(ps);
    if |ps| > 2 {
      BodyCons(ps[1..]);
      BodyCons(ps[2..]);
      if |ps| > 4 {
        BodyCons(ps[3..]);
        BodyCons(ps[4..]);
      }
    }
  }

  lemma BodyCons(ps: seq<Param>)
    requires |ps| > 1
    ensures |RenderBody(ps)| == |ps[0].key| + |ps[0].value| + 4 + |RenderBody(ps[1..])|
  {
  }
}

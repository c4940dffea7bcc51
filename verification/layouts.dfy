/**
 * The literal forms: alphabets, the digest input, and the texts of the elements and of the state file,
 * written out character by character.
 */
module Layouts {
  import opened Wrappers
  import opened Octets
  import opened Crypto
  import opened SdText
  import opened SdRecords
  import opened SdStrip
  import opened SdHeader
  import opened StateFile

  // ---------- Alphabets ----------

  const LOWER_HEX: string := "0123456789abcdef"
  const UPPER_HEX: string := "0123456789ABCDEF"
  const UPPER: string := "ABCDEFGHIJKLMNOPQRSTUVWXYZ"
  const LOWER: string := "abcdefghijklmnopqrstuvwxyz"
  const BASE64: string := UPPER + (LOWER + ("0123456789" + "+/"))

  /** Hexadecimal is printed in lower case and read in either. */
  lemma HexAlphabet(n: nat, c: char)
    requires n < 16
    ensures HexDigit(n) == LOWER_HEX[n]
    ensures HexValue(c) == Some(n) <==> c == LOWER_HEX[n] || c == UPPER_HEX[n]
  {
    assert |LOWER_HEX| == 16 && |UPPER_HEX| == 16;
  }

  /** Each octet is printed as its high digit and then its low one. */
  lemma HexPlaces(b: octets, i: nat)
    requires i < |b|
    ensures HexEncode(b)[2 * i] == LOWER_HEX[b[i] as int / 16] && HexEncode(b)[2 * i + 1] == LOWER_HEX[b[i] as int % 16]
  {
    hide HexEncode;
    HexAt(b, i);
    HexAlphabet(b[i] as int / 16, 'a');
    HexAlphabet(b[i] as int % 16, 'a');
  }

  lemma Base64Alphabet(n: nat)
    requires n < 64
    ensures |BASE64| == 64 && B64Char(n) == BASE64[n]
  {
    if n < 26 {
      Letter(n);
    } else if n < 52 {
      Letter(n - 26);
      assert BASE64[n] == LOWER[n - 26];
    } else if n < 62 {
      assert BASE64[n] == "0123456789"[n - 52];
    } else {
      assert BASE64[n] == "+/"[n - 62];
    }
  }

  lemma Letter(n: nat)
    requires n < 26
    ensures UPPER[n] as int == 'A' as int + n && LOWER[n] as int == 'a' as int + n
  {
  }

  /** Three octets are cut into four sixes of bits, the highest first (section 4 of RFC 4648). */
  lemma Base64Places(b: octets)
    requires |b| >= 3
    ensures B64Encode(b)[..4] == Sixes((b[0] as int) * 65536 + (b[1] as int) * 256 + b[2] as int)
    ensures B64Encode(b)[4..] == B64Encode(b[3..])
  {
    hide B64Group, Sixes;
    GroupPlaces(b[0], b[1], b[2]);
    assert B64Encode(b) == B64Group(b[0], b[1], b[2]) + B64Encode(b[3..]);
  }

  function Sixes(n: nat): string {
    Base64Length();
    [BASE64[n / 262144 % 64], BASE64[n / 4096 % 64], BASE64[n / 64 % 64], BASE64[n % 64]]
  }

  lemma Base64Length()
    ensures |BASE64| == 64
  {
  }

  lemma GroupPlaces(b: byte, c: byte, d: byte)
    ensures B64Group(b, c, d) == Sixes((b as int) * 65536 + (c as int) * 256 + d as int)
  {
    hide BASE64, B64Char;
    var (x, y, z) := (b as int, c as int, d as int);
    SixBits(x, y, z);
    Base64Alphabet(x / 4);
    Base64Alphabet(x % 4 * 16 + y / 16);
    Base64Alphabet(y % 16 * 4 + z / 64);
    Base64Alphabet(z % 64);
  }

  lemma SixBits(x: nat, y: nat, z: nat)
    requires x < 256 && y < 256 && z < 256
    ensures var n := x * 65536 + y * 256 + z;
            && n / 262144 % 64 == x / 4 && n / 4096 % 64 == x % 4 * 16 + y / 16
            && n / 64 % 64 == y % 16 * 4 + z / 64 && n % 64 == z % 64
  {
    var n := x * 65536 + y * 256 + z;
    var (p, q, r, t) := (x / 4, x % 4 * 16 + y / 16, y % 16 * 4 + z / 64, z % 64);
    assert n == 262144 * p + (4096 * q + 64 * r + t) && q < 64 && r < 64 && t < 64;
    Quotient(n, 262144, p, 4096 * q + 64 * r + t);
    Quotient(n, 4096, 64 * p + q, 64 * r + t);
    Quotient(n, 64, 4096 * p + 64 * q + r, t);
    Remainder(64 * p + q, p, q);
    Remainder(4096 * p + 64 * q + r, 64 * p + q, r);
    Remainder(n, 4096 * p + 64 * q + r, t);
  }

  lemma Quotient(n: nat, d: nat, q: nat, t: nat)
    requires d > 0 && n == d * q + t && t < d
    ensures n / d == q
  {
    DivUnique(n, d, q, t);
  }

  lemma Remainder(n: nat, q: nat, t: nat)
    requires n == 64 * q + t && t < 64
    ensures n % 64 == t
  {
  }

  /** One or two octets at the end are filled up with zero bits and `=`. */
  lemma Base64Ends(x: byte, y: byte)
    ensures B64Encode([]) == ""
    ensures B64Encode([x]) == B64Encode([x, '\0', '\0'])[..2] + "=="
    ensures B64Encode([x, y]) == B64Encode([x, y, '\0'])[..3] + "="
  {
    assert [x, '\0', '\0'][3..] == [] && [x, y, '\0'][3..] == [];
  }

  /** Blanks in front, and line ends, blanks and hyphens behind, do not change what is decoded. */
  lemma Base64Trims(front: string, b: octets, behind: string)
    requires b != [] && (forall k :: 0 <= k < |front| ==> front[k] in {' ', '\t'})
    requires forall k :: 0 <= k < |behind| ==> behind[k] in {' ', '\t', '\n', '\r', '-'}
    ensures B64Trimmed(front + (B64Encode(b) + behind)) == B64Encode(b)
  {
    hide B64Encode;
    var s := B64Encode(b);
    B64Ends(b);
    B64Length(b);
    BlanksAre(front, s + behind);
    assert (front + (s + behind))[|front|..] == s + behind;
    CutBehind(s, behind);
  }

  lemma {:induction false} BlanksAre(front: string, rest: string)
    requires (forall k :: 0 <= k < |front| ==> front[k] in {' ', '\t'}) && rest != "" && rest[0] !in {' ', '\t'}
    ensures Blanks(front + rest) == |front|
  {
    if front == "" {
      assert front + rest == rest;
    } else {
      assert (front + rest)[1..] == front[1..] + rest;
      BlanksAre(front[1..], rest);
    }
  }

  lemma {:induction false} CutBehind(s: string, behind: string)
    requires |s| >= 4 && s[|s| - 1] !in {' ', '\t', '\n', '\r', '-'}
    requires forall k :: 0 <= k < |behind| ==> behind[k] in {' ', '\t', '\n', '\r', '-'}
    ensures Cut(s + behind) == s
    decreases |behind|
  {
    var t := s + behind;
    if behind == "" {
      assert t == s;
    } else {
      assert t[|t| - 1] == behind[|behind| - 1] && t[..|t| - 1] == s + behind[..|behind| - 1];
      CutBehind(s, behind[..|behind| - 1]);
    }
  }

  // ---------- Numbers ----------

  /**
   * What the C library reads as an unsigned 64-bit number: white space, a sign, digits.  Too large a
   * value saturates, and a minus sign negates modulo 2^64.
   */
  lemma NumberRead(blanks: string, sign: string, digits: string, rest: string)
    requires (forall k :: 0 <= k < |blanks| ==> IsSpace(blanks[k])) && sign in ["", "+", "-"]
    requires (forall k :: 0 <= k < |digits| ==> IsDigit(digits[k])) && (rest == "" || !IsDigit(rest[0]))
    requires digits == "" ==> rest == "" || (!IsSpace(rest[0]) && rest[0] != '+' && rest[0] != '-')
    ensures Strtoull(blanks + (sign + (digits + rest))) ==
            if digits == "" then (0, 0)
            else
              (if DecimalValue(digits) >= TWO_64 then TWO_64 - 1
               else if sign == "-" then (TWO_64 - DecimalValue(digits)) % TWO_64
               else DecimalValue(digits),
               |blanks| + |sign| + |digits|)
  {
    hide DecimalValue;
    var tail := digits + rest;
    var s := blanks + (sign + tail);
    assert sign != "" ==> (sign + tail)[0] == sign[0];
    assert sign == "" ==> sign + tail == tail;
    assert digits != "" ==> tail[0] == digits[0] && IsDigit(digits[0]);
    assert digits == "" ==> tail == rest;
    SpacesAre(blanks, sign + tail);
    DigitRunStops(digits, rest);
    ReadParts(s, blanks, sign, digits, rest);
  }

  lemma ReadParts(s: string, blanks: string, sign: string, digits: string, rest: string)
    requires s == blanks + (sign + (digits + rest)) && sign in ["", "+", "-"]
    requires SpaceRun(s) == |blanks| && DigitRun(digits + rest) == |digits|
    requires forall k :: 0 <= k < |digits| ==> IsDigit(digits[k])
    requires sign == "" ==> digits + rest == "" || ((digits + rest)[0] != '+' && (digits + rest)[0] != '-')
    ensures Strtoull(s) ==
            if digits == "" then (0, 0)
            else
              (if DecimalValue(digits) >= TWO_64 then TWO_64 - 1
               else if sign == "-" then (TWO_64 - DecimalValue(digits)) % TWO_64
               else DecimalValue(digits),
               |blanks| + |sign| + |digits|)
  {
    hide DecimalValue, SpaceRun, DigitRun;
    var start := |blanks| + |sign|;
    assert s[start..] == digits + rest;
    assert s[start..start + |digits|] == digits;
    if sign != "" {
      assert s[|blanks|] == sign[0];
    } else if digits + rest != "" {
      assert s[|blanks|] == (digits + rest)[0];
    }
  }

  lemma {:induction false} SpacesAre(blanks: string, rest: string)
    requires (forall k :: 0 <= k < |blanks| ==> IsSpace(blanks[k])) && (rest == "" || !IsSpace(rest[0]))
    ensures SpaceRun(blanks + rest) == |blanks|
  {
    if blanks == "" {
      assert blanks + rest == rest;
    } else {
      assert (blanks + rest)[1..] == blanks[1..] + rest;
      SpacesAre(blanks[1..], rest);
    }
  }

  /** What `%2x` reads: one or two digits, or a sign and one digit, behind white space. */
  lemma PairRead(blanks: string, n: nat, m: nat, c: char, d: char, rest: string)
    requires (forall k :: 0 <= k < |blanks| ==> IsSpace(blanks[k])) && HexValue(c) == Some(n) && HexValue(d) == Some(m)
    requires rest == "" || (HexValue(rest[0]).None? && !(c == '0' && (rest[0] == 'x' || rest[0] == 'X')))
    ensures HexScan(blanks + ([c, d] + rest), 0) == Some((16 * n + m) as char)
    ensures HexScan(blanks + ([c] + rest), 0) == Some(n as char)
    ensures HexScan(blanks + (['+', c] + rest), 0) == Some(n as char)
    ensures HexScan(blanks + (['-', c] + rest), 0) == Some(((256 - n) % 256) as char)
  {
    PairAt(blanks, [c, d] + rest);
    PairAt(blanks, [c] + rest);
    PairAt(blanks, ['+', c] + rest);
    PairAt(blanks, ['-', c] + rest);
    assert ([c] + rest)[0] == c && (rest != "" ==> ([c] + rest)[1] == rest[0]);
  }

  lemma PairAt(blanks: string, t: string)
    requires (forall k :: 0 <= k < |blanks| ==> IsSpace(blanks[k])) && t != "" && !IsSpace(t[0])
    ensures HexScan(blanks + t, 0) == HexScan(t, 0)
  {
    SpacesAre(blanks, t);
    assert (blanks + t)[0..] == blanks + t && t[0..] == t;
    assert forall k :: 0 <= k < |t| ==> (blanks + t)[|blanks| + k] == t[k];
  }

  // ---------- The digest input ----------

  /** The previous hash, the number in eight octets from the highest, and the payload, in this order. */
  lemma ChainInputPlaces(prev: octets, n: nat, payload: string)
    ensures |Be64(n)| == 8 && forall i :: 0 <= i < 8 ==> Be64(n)[i] as int == n / Pow256(7 - i) % 256
    ensures var s := ChainInput(prev, n, payload);
            |s| == |prev| + 8 + |payload|
            && s[..|prev|] == prev && s[|prev|..|prev| + 8] == Be64(n) && s[|prev| + 8..] == payload
  {
    hide Be64;
    var s := ChainInput(prev, n, payload);
    assert s == prev + Be64(n) + payload;
    forall i | 0 <= i < 8 ensures Be64(n)[i] as int == n / Pow256(7 - i) % 256 {
      NumberPlace(n, i);
    }
  }

  lemma NumberPlace(n: nat, i: nat)
    requires i < 8
    ensures Be64(n)[i] as int == n / Pow256(7 - i) % 256
  {
    BigEndianAt(n, 8, i);
  }

  lemma ChainStart(p: Primitives, alg: HashAlg)
    ensures InitHash(p, alg) == Digest(p, alg, "MMHASHCHAINSIGS_CHAIN_INIT_V1")
  {
  }

  /** The three algorithms, their names in any case, and the octets of their digests. */
  lemma Algorithms()
    ensures HashFromName("sha256") == Some(Sha256) && HashFromName("SHA256") == Some(Sha256)
    ensures HashFromName("sha384") == Some(Sha384) && HashFromName("Sha384") == Some(Sha384)
    ensures HashFromName("sha512") == Some(Sha512) && HashFromName("sHA512") == Some(Sha512)
    ensures HashName(Sha256) == "sha256" && HashName(Sha384) == "sha384" && HashName(Sha512) == "sha512"
    ensures HashLen(Sha256) == 32 && HashLen(Sha384) == 48 && HashLen(Sha512) == 64
  {
    assert LowerCase("sha256") == "sha256" && LowerCase("SHA256") == "sha256";
    assert LowerCase("sha384") == "sha384" && LowerCase("Sha384") == "sha384";
    assert LowerCase("sha512") == "sha512" && LowerCase("sHA512") == "sha512";
  }

  // ---------- The elements ----------

  function Field(name: string, value: string): string {
    name + "=\"" + value + "\""
  }

  /** Texts with single spaces between them. */
  function Spaced(fields: seq<string>): string {
    if fields == [] then "" else if |fields| == 1 then fields[0] else fields[0] + " " + Spaced(fields[1..])
  }

  function FieldsOf(ps: seq<Param>): (fields: seq<string>)
    ensures |fields| == |ps|
  {
    seq(|ps|, k requires 0 <= k < |ps| => Field(ps[k].key, ps[k].value))
  }

  lemma {:induction false} BodyIsSpaced(ps: seq<Param>)
    ensures RenderBody(ps) == Spaced(FieldsOf(ps))
  {
    if |ps| > 1 {
      BodyIsSpaced(ps[1..]);
      assert FieldsOf(ps)[1..] == FieldsOf(ps[1..]);
    }
  }

  /** A message record as it stands in the log. */
  lemma MsgText(n: nat, hash: octets)
    ensures RenderRecord(MsgRecord(n, hash)) ==
            "[mmhashchainsigs@32473 " + Spaced([Field("q", Decimal(n)), Field("h", HexEncode(hash))]) + "]"
  {
    hide Decimal, HexEncode, RenderBody, Field, Spaced;
    var ps := RecordParams(MsgRecord(n, hash));
    BodyIsSpaced(ps);
    assert FieldsOf(ps) == [Field("q", Decimal(n)), Field("h", HexEncode(hash))];
  }

  /** A record that opens a chain. */
  lemma InitText(n: nat, hash: octets, fp: octets)
    ensures RenderRecord(InitRecord(n, hash, fp)) ==
            "[mmhashchainsigs@32473 "
            + Spaced([Field("t", "I"), Field("q", Decimal(n)), Field("h", HexEncode(hash)), Field("f", HexEncode(fp))])
            + "]"
  {
    hide Decimal, HexEncode, RenderBody, Field, Spaced;
    var ps := RecordParams(InitRecord(n, hash, fp));
    BodyIsSpaced(ps);
    assert FieldsOf(ps) ==
           [Field("t", "I"), Field("q", Decimal(n)), Field("h", HexEncode(hash)), Field("f", HexEncode(fp))];
  }

  /** A signature record: its own number and hash, the range it covers, and the signature. */
  lemma SigText(n: nat, hash: octets, from: nat, to: nat, signature: octets)
    ensures RenderRecord(SigRecord(n, hash, from, to, signature)) ==
            "[mmhashchainsigs@32473 "
            + Spaced([Field("t", "S"), Field("q", Decimal(n)), Field("h", HexEncode(hash)),
                      Field("qf", Decimal(from)), Field("qt", Decimal(to)), Field("s", B64Encode(signature))])
            + "]"
  {
    hide Decimal, HexEncode, RenderBody, B64Encode, Field, Spaced;
    var ps := RecordParams(SigRecord(n, hash, from, to, signature));
    BodyIsSpaced(ps);
    assert FieldsOf(ps) ==
           [Field("t", "S"), Field("q", Decimal(n)), Field("h", HexEncode(hash)),
            Field("qf", Decimal(from)), Field("qt", Decimal(to)), Field("s", B64Encode(signature))];
  }

  lemma CertificateText(der: octets)
    ensures CertElement(der) == "[mmhashchainsigs-cert@32473 cert=\"" + B64Encode(der) + "\"]"
  {
    hide B64Encode;
  }

  /** The header element: six fields under their names, the number plain and the texts escaped. */
  lemma HeaderText(h: Header)
    ensures RenderHeader(h) ==
            "[mmhashchainsigs-hdr@32473 "
            + Spaced([Field("pri", Decimal(h.pri)), Field("ts", Escape(h.ts)), Field("host", Escape(h.host)),
                      Field("app", Escape(h.app)), Field("procid", Escape(h.procid)), Field("msgid", Escape(h.msgid))])
            + "]"
  {
    hide Decimal, Escape, RenderBody, Field, Spaced;
    var ps := HeaderParams(h);
    BodyIsSpaced(ps);
    assert FieldsOf(ps) ==
           [Field("pri", Decimal(h.pri)), Field("ts", Escape(h.ts)), Field("host", Escape(h.host)),
            Field("app", Escape(h.app)), Field("procid", Escape(h.procid)), Field("msgid", Escape(h.msgid))];
  }

  /** Looking a name up in the header and undoing the escape gives the field of that name. */
  lemma HeaderFields(h: Header)
    ensures forall i :: 0 <= i < |Decimal(h.pri)| ==> IsDigit(Decimal(h.pri)[i])
    ensures var ps := HeaderParams(h);
            && Lookup(ps, "pri") == Some(Decimal(h.pri)) && DecimalValue(Decimal(h.pri)) == h.pri
            && Lookup(ps, "ts") == Some(Escape(h.ts)) && Unescape(Escape(h.ts)) == h.ts
            && Lookup(ps, "host") == Some(Escape(h.host)) && Unescape(Escape(h.host)) == h.host
            && Lookup(ps, "app") == Some(Escape(h.app)) && Unescape(Escape(h.app)) == h.app
            && Lookup(ps, "procid") == Some(Escape(h.procid)) && Unescape(Escape(h.procid)) == h.procid
            && Lookup(ps, "msgid") == Some(Escape(h.msgid)) && Unescape(Escape(h.msgid)) == h.msgid
  {
    hide Decimal, Escape, Unescape, DecimalValue, Lookup;
    DecimalDigits(h.pri);
    EscapeRoundTrip(h.ts);
    EscapeRoundTrip(h.host);
    EscapeRoundTrip(h.app);
    EscapeRoundTrip(h.procid);
    EscapeRoundTrip(h.msgid);
    var ps := HeaderParams(h);
    LookupAt(ps, 0);
    LookupAt(ps, 1);
    LookupAt(ps, 2);
    LookupAt(ps, 3);
    LookupAt(ps, 4);
    LookupAt(ps, 5);
  }

  /** The same by the parameter search in the text of the header, for fields without spaces. */
  lemma HeaderSearched(h: Header, key: string)
    requires key in ["pri", "ts", "host", "app", "procid", "msgid"]
    requires ' ' !in h.ts && ' ' !in h.host && ' ' !in h.app && ' ' !in h.procid && ' ' !in h.msgid
    ensures var (n, text) := (|"[mmhashchainsigs-hdr@32473 "|, RenderHeader(h));
            n < |text| && GetParam(text[n..|text| - 1], key, 0) == Lookup(HeaderParams(h), key)
  {
    hide RenderBody, GetParam, Escape, Decimal, At, Lookup, IsName, AreParams, Mark;
    var (ps, text, n) := (HeaderParams(h), RenderHeader(h), |Mark(HDR_ID)|);
    HeaderParamsOk(h);
    SpaceFree(h);
    NamesAre(key);
    BodyInside(h);
    AtWhole(RenderBody(ps));
    GetParamRendered(RenderBody(ps), 0, ps, key);
  }

  lemma AtWhole(s: string)
    ensures At(s, 0, s)
  {
  }

  lemma NamesAre(key: string)
    requires key in ["pri", "ts", "host", "app", "procid", "msgid"]
    ensures IsName(key)
  {
  }

  lemma BodyInside(h: Header)
    ensures |Mark(HDR_ID)| == |"[mmhashchainsigs-hdr@32473 "|
    ensures var (n, text) := (|Mark(HDR_ID)|, RenderHeader(h));
            n < |text| && text[n..|text| - 1] == RenderBody(HeaderParams(h))
  {
    hide RenderBody, HeaderParams;
    HeaderParamsLength(h);
    var text := RenderHeader(h);
    assert text == Mark(HDR_ID) + RenderBody(HeaderParams(h)) + "]";
  }

  lemma SpaceFree(h: Header)
    requires ' ' !in h.ts && ' ' !in h.host && ' ' !in h.app && ' ' !in h.procid && ' ' !in h.msgid
    ensures forall k :: 0 <= k < |HeaderParams(h)| ==> ' ' !in HeaderParams(h)[k].value
  {
    hide Escape, Decimal;
    EscapeAddsNoSpace(h.ts);
    EscapeAddsNoSpace(h.host);
    EscapeAddsNoSpace(h.app);
    EscapeAddsNoSpace(h.procid);
    EscapeAddsNoSpace(h.msgid);
    DecimalDigits(h.pri);
  }

  /** Exactly quotes, backslashes and closing brackets get a backslash in front, wherever they stand. */
  lemma EscapePlaces(v: string, c: char, w: string)
    ensures Escape(v + ([c] + w)) ==
            Escape(v) + ((if c in {'"', '\\', ']'} then ['\\', c] else [c]) + Escape(w))
  {
    EscapeJoined(v, [c] + w);
    EscapeCons([c] + w);
    assert ([c] + w)[1..] == w;
  }

  lemma {:induction false} EscapeJoined(v: string, w: string)
    ensures Escape(v + w) == Escape(v) + Escape(w)
    decreases |w|
  {
    if w == "" {
      assert v + w == v;
    } else {
      var (front, last) := (w[..|w| - 1], w[|w| - 1]);
      EscapeJoined(v, front);
      assert (v + w)[..|v + w| - 1] == v + front;
      assert Escape(v) + (Escape(front) + EscapeChar(last)) == Escape(v) + Escape(front) + EscapeChar(last);
    }
  }

  predicate IsUnescaped(v: string) {
    forall c :: c in v ==> !NeedsEscape(c)
  }

  /**
   * For fields without characters to escape: the header is formatted for the signer's buffer exactly
   * when each field is below its limit and the six of them leave room for the rest of the element.
   */
  lemma HeaderBounds(h: Header)
    requires IsUnescaped(h.ts) && IsUnescaped(h.host) && IsUnescaped(h.app)
    requires IsUnescaped(h.procid) && IsUnescaped(h.msgid)
    ensures FormatHeader(h, 1024).Some? <==>
              && |h.ts| < 80 && |h.host| < 520 && |h.app| < 136 && |h.procid| < 136 && |h.msgid| < 136
              && |Decimal(h.pri)| + |h.ts| + |h.host| + |h.app| + |h.procid| + |h.msgid| + 74 < 1024
  {
    hide Escape, Decimal, RenderHeader;
    PlainIsUnescaped(h.ts);
    PlainIsUnescaped(h.host);
    PlainIsUnescaped(h.app);
    PlainIsUnescaped(h.procid);
    PlainIsUnescaped(h.msgid);
    HeaderLength(h);
  }

  lemma HeaderLength(h: Header)
    ensures |RenderHeader(h)| ==
            |Decimal(h.pri)| + |Escape(h.ts)| + |Escape(h.host)| + |Escape(h.app)| + |Escape(h.procid)|
            + |Escape(h.msgid)| + 74
  {
    hide Decimal, Escape, RenderHeader;
    HeaderText(h);
    var fields := [Field("pri", Decimal(h.pri)), Field("ts", Escape(h.ts)), Field("host", Escape(h.host)),
                   Field("app", Escape(h.app)), Field("procid", Escape(h.procid)), Field("msgid", Escape(h.msgid))];
    SpacedLength(fields);
  }

  lemma SpacedLength(f: seq<string>)
    requires |f| == 6
    ensures |Spaced(f)| == |f[0]| + |f[1]| + |f[2]| + |f[3]| + |f[4]| + |f[5]| + 5
  {
    assert f[1..][1..] == f[2..] && f[2..][1..] == f[3..] && f[3..][1..] == f[4..] && f[4..][1..] == f[5..];
    assert |Spaced(f[5..])| == |f[5]|;
    assert |Spaced(f[4..])| == |f[4]| + 1 + |f[5]|;
    assert |Spaced(f[3..])| == |f[3]| + 1 + |Spaced(f[4..])|;
    assert |Spaced(f[2..])| == |f[2]| + 1 + |Spaced(f[3..])|;
  }

  lemma {:induction false} EscapeAddsNoSpace(v: string)
    requires ' ' !in v
    ensures ' ' !in Escape(v)
  {
    if v != "" {
      var front := v[..|v| - 1];
      assert forall c :: c in front ==> c in v;
      assert v[|v| - 1] in v;
      EscapeAddsNoSpace(front);
    }
  }

  // ---------- The state file ----------

  lemma StateText(s: Snapshot)
    ensures SaveText(s) ==
            "MMHASHCHAINSIGS_STATE_V1\n" + ("hashalgo=" + HashName(s.alg) + "\n")
            + ("chain_hash=" + HexEncode(s.current) + "\n") + ("seq=" + Decimal(s.next) + "\n")
            + ("sig_seq_from=" + Decimal(s.sigFrom) + "\n") + ("pubkey_fp=" + HexEncode(s.fp) + "\n")
  {
    hide HashName, HexEncode, Decimal, Concat;
    var (a, b, c) := (FieldLine(s, 0), FieldLine(s, 1), FieldLine(s, 2));
    var (d, e, m) := (FieldLine(s, 3), FieldLine(s, 4), MAGIC + "\n");
    ConcatSix(m, a, b, c, d, e);
  }

  lemma ConcatSix(m: string, a: string, b: string, c: string, d: string, e: string)
    ensures Concat([m, a, b, c, d, e]) == m + a + b + c + d + e
  {
    ConcatMore(e, []);
    ConcatMore(d, [e]);
    ConcatMore(c, [d, e]);
    ConcatMore(b, [c, d, e]);
    ConcatMore(a, [b, c, d, e]);
    ConcatMore(m, [a, b, c, d, e]);
    assert [e] + [] == [e] && [d] + [e] == [d, e] && [c] + [d, e] == [c, d, e] && [b] + [c, d, e] == [b, c, d, e];
    assert [a] + [b, c, d, e] == [a, b, c, d, e] && [m] + [a, b, c, d, e] == [m, a, b, c, d, e];
  }

  lemma ConcatMore(a: string, rest: seq<string>)
    ensures Concat([a] + rest) == a + Concat(rest) && Concat([]) == ""
  {
    assert ([a] + rest)[1..] == rest;
  }
}

/** Octet strings and their printed forms: hexadecimal, decimal, big-endian and base64. */
module Octets {
  import opened Wrappers

  /** A C `unsigned char`.  Text (C `char *`) is a plain `string`. */
  type byte = c: char | c as int < 256 witness 'a'
  type octets = seq<byte>

  const TWO_64: nat := 0x1_0000_0000_0000_0000

  /** Free of what ends or disturbs a quoted value, a parameter scan or a line of a file. */
  predicate IsPlain(s: string) {
    forall c :: c in s ==> c != ' ' && c != '"' && c != '\\' && c != ']' && c != '\n'
  }

  lemma PlainConcat(s: string, t: string)
    requires IsPlain(s) && IsPlain(t)
    ensures IsPlain(s + t)
  {
  }

  // ---------- Hexadecimal ----------

  function HexDigit(n: nat): char
    requires n < 16
  {
    if n < 10 then ('0' as int + n) as char else ('a' as int + n - 10) as char
  }

  function HexValue(c: char): (r: Option<nat>)
    ensures r.Some? ==> r.value < 16
  {
    if '0' <= c <= '9' then Some(c as int - '0' as int)
    else if 'a' <= c <= 'f' then Some(c as int - 'a' as int + 10)
    else if 'A' <= c <= 'F' then Some(c as int - 'A' as int + 10)
    else None
  }

  function HexEncode(b: octets): (s: string)
    ensures |s| == 2 * |b|
  {
    if b == [] then "" else
      var last := b[|b| - 1] as int;
      HexEncode(b[..|b| - 1]) + [HexDigit(last / 16), HexDigit(last % 16)]
  }

  /**
   * The C library's `%2x` at position `i`: white space is skipped, then at most two characters are
   * read, a sign and one digit or one or two digits; a minus sign negates modulo 256.
   */
  function HexScan(s: string, i: nat): (r: Option<byte>)
    requires i <= |s|
  {
    var j := i + SpaceRun(s[i..]);
    if j == |s| then None
    else if s[j] == '+' || s[j] == '-' then
      if j + 1 == |s| then None
      else
        match HexValue(s[j + 1])
        case Some(d) => Some(if s[j] == '-' then ((256 - d) % 256) as char else d as char)
        case None => None
    else
      match HexValue(s[j])
      case None => None
      case Some(d) =>
        if j + 1 == |s| then Some(d as char)
        else if s[j] == '0' && (s[j + 1] == 'x' || s[j + 1] == 'X') then None
        else
          match HexValue(s[j + 1])
          case Some(e) => Some((16 * d + e) as char)
          case None => Some(d as char)
  }

  /** The octets read at every second position from pair `i` on, up to the first that cannot be read. */
  function HexRun(s: string, i: nat): (r: octets)
    requires 2 * i <= |s|
    ensures i + |r| <= |s| / 2
    decreases |s| - 2 * i
  {
    if 2 * i + 2 > |s| then []
    else match HexScan(s, 2 * i) case Some(b) => [b] + HexRun(s, i + 1) case None => []
  }

  /** What the decoder writes: nothing for an odd length, else all up to the first bad pair. */
  function HexWritten(s: string): (r: octets)
    ensures |r| <= |s| / 2
  {
    if |s| % 2 != 0 then [] else HexRun(s, 0)
  }

  /** Odd lengths are refused, and so is a pair that cannot be read. */
  function HexDecode(s: string): (r: Option<octets>)
    ensures r.Some? ==> 2 * |r.value| == |s|
  {
    if 2 * |HexWritten(s)| == |s| then Some(HexWritten(s)) else None
  }

  lemma HexDigitValue(n: nat)
    requires n < 16
    ensures HexValue(HexDigit(n)) == Some(n)
    ensures IsPlain([HexDigit(n)])
  {
  }

  lemma {:induction false} HexAt(b: octets, i: nat)
    requires i < |b|
    ensures HexEncode(b)[2 * i] == HexDigit(b[i] as int / 16)
    ensures HexEncode(b)[2 * i + 1] == HexDigit(b[i] as int % 16)
  {
    if i < |b| - 1 {
      HexAt(b[..|b| - 1], i);
    }
  }

  lemma HexScanPair(s: string, i: nat, b: byte)
    requires i + 2 <= |s| && s[i] == HexDigit(b as int / 16) && s[i + 1] == HexDigit(b as int % 16)
    ensures HexScan(s, i) == Some(b)
  {
    HexDigitValue(b as int / 16);
    HexDigitValue(b as int % 16);
    assert s[i..][0] == s[i];
  }

  lemma {:induction false} HexRunEncoded(b: octets, i: nat)
    requires i <= |b|
    ensures HexRun(HexEncode(b), i) == b[i..]
    decreases |b| - i
  {
    hide HexScan;
    if i < |b| {
      HexAt(b, i);
      HexScanPair(HexEncode(b), 2 * i, b[i]);
      HexRunEncoded(b, i + 1);
    }
  }

  lemma {:induction false} HexPlain(b: octets)
    ensures IsPlain(HexEncode(b))
  {
    if b != [] {
      var front, last := b[..|b| - 1], b[|b| - 1] as int;
      HexPlain(front);
      HexDigitValue(last / 16);
      HexDigitValue(last % 16);
      PlainConcat([HexDigit(last / 16)], [HexDigit(last % 16)]);
      PlainConcat(HexEncode(front), [HexDigit(last / 16)] + [HexDigit(last % 16)]);
      assert [HexDigit(last / 16)] + [HexDigit(last % 16)] == [HexDigit(last / 16), HexDigit(last % 16)];
    }
  }

  /** Decoding inverts encoding, and the digits are plain. */
  lemma HexRoundTrip(b: octets)
    ensures HexDecode(HexEncode(b)) == Some(b)
    ensures IsPlain(HexEncode(b))
  {
    hide HexEncode, HexRun;
    HexRunEncoded(b, 0);
    HexPlain(b);
    assert b[0..] == b;
  }

  method HexEncodeInto(input: octets, out: array<char>)
    requires out.Length >= 2 * |input| + 1
    modifies out
    ensures out[..2 * |input|] == HexEncode(input)
    ensures out[2 * |input|] == '\0'
    ensures out[2 * |input| + 1..] == old(out[2 * |input| + 1..])
  {
    for i := 0 to |input|
      invariant out[..2 * i] == HexEncode(input[..i])
      invariant out[2 * |input| + 1..] == old(out[2 * |input| + 1..])
    {
      var c := input[i] as int;
      out[2 * i] := HexDigit(c / 16);
      out[2 * i + 1] := HexDigit(c % 16);
      assert input[..i + 1][..i] == input[..i];
      assert out[..2 * (i + 1)] == out[..2 * i] + [HexDigit(c / 16), HexDigit(c % 16)];
    }
    assert input[..|input|] == input;
    out[2 * |input|] := '\0';
  }

  /**
   * Decodes pair by pair and stops at the first that cannot be read: what was written before it stays,
   * and nothing else of `out` changes.
   */
  method HexDecodeInto(input: string, out: array<byte>) returns (ok: bool)
    modifies out
    ensures ok <==> HexDecode(input).Some? && |input| / 2 <= out.Length
    ensures var w := if |input| / 2 <= out.Length then HexWritten(input) else [];
            out[..|w|] == w && out[|w|..] == old(out[|w|..])
  {
    hide HexScan;
    if |input| % 2 != 0 || |input| / 2 > out.Length {
      return false;
    }
    assert out[..0] == [];
    for i := 0 to |input| / 2
      invariant HexWritten(input) == out[..i] + HexRun(input, i)
      invariant out[i..] == old(out[i..])
    {
      var b := HexScan(input, 2 * i);
      if b.None? {
        return false;
      }
      ghost var front := out[..i];
      out[i] := b.value;
      assert out[..i + 1] == front + [b.value];
    }
    return true;
  }

  // ---------- Decimal ----------

  function Decimal(n: nat): (s: string)
    ensures s != ""
  {
    var digit := ('0' as int + n % 10) as char;
    if n < 10 then [digit] else Decimal(n / 10) + [digit]
  }

  predicate IsDigit(c: char) {
    '0' <= c <= '9'
  }

  predicate IsSpace(c: char) {
    c == ' ' || '\t' <= c <= '\r'
  }

  function SpaceRun(s: string): (n: nat)
    ensures n <= |s|
  {
    if s == "" || !IsSpace(s[0]) then 0 else 1 + SpaceRun(s[1..])
  }

  function DigitRun(s: string): (n: nat)
    ensures n <= |s|
    ensures forall i :: 0 <= i < n ==> IsDigit(s[i])
  {
    if s == "" || !IsDigit(s[0]) then 0 else 1 + DigitRun(s[1..])
  }

  function DecimalValue(s: string): nat
    requires forall i :: 0 <= i < |s| ==> IsDigit(s[i])
  {
    if s == "" then 0
    else
      assert IsDigit(s[|s| - 1]);
      10 * DecimalValue(s[..|s| - 1]) + (s[|s| - 1] as int - '0' as int)
  }

  /**
   * The C library's base-10 `strtoull`: leading white space and a sign are skipped, the value
   * saturates at 2^64 - 1, a minus sign negates modulo 2^64.  Returns the value and the number of
   * characters consumed (0 when there is no digit).
   */
  function Strtoull(s: string): (r: (nat, nat))
    ensures r.0 < TWO_64 && r.1 <= |s|
  {
    var sp := SpaceRun(s);
    var signed := sp < |s| && (s[sp] == '+' || s[sp] == '-');
    var start := if signed then sp + 1 else sp;
    var n := DigitRun(s[start..]);
    if n == 0 then (0, 0) else
      var v := DecimalValue(s[start..start + n]);
      if v >= TWO_64 then (TWO_64 - 1, start + n)
      else if signed && s[sp] == '-' then ((TWO_64 - v) % TWO_64, start + n)
      else (v, start + n)
  }

  lemma {:induction false} DecimalDigits(n: nat)
    ensures forall i :: 0 <= i < |Decimal(n)| ==> IsDigit(Decimal(n)[i])
    ensures DecimalValue(Decimal(n)) == n
  {
    if n >= 10 {
      DecimalDigits(n / 10);
      assert Decimal(n)[..|Decimal(n)| - 1] == Decimal(n / 10);
    } else {
      assert Decimal(n)[..0] == "";
    }
  }

  lemma {:induction false} DigitRunStops(s: string, rest: string)
    requires forall i :: 0 <= i < |s| ==> IsDigit(s[i])
    requires rest == "" || !IsDigit(rest[0])
    ensures DigitRun(s + rest) == |s|
  {
    if s == "" {
      assert s + rest == rest;
    } else {
      assert (s + rest)[1..] == s[1..] + rest;
      DigitRunStops(s[1..], rest);
    }
  }

  /** Reading back a printed 64-bit number consumes exactly its digits. */
  lemma DecimalRoundTrip(n: nat, rest: string)
    requires n < TWO_64
    requires rest == "" || !IsDigit(rest[0])
    ensures Strtoull(Decimal(n) + rest) == (n, |Decimal(n)|)
  {
    var s := Decimal(n);
    DecimalDigits(n);
    DigitRunStops(s, rest);
    assert IsDigit(s[0]);
    assert (s + rest)[0] == s[0];
    assert (s + rest)[0..] == s + rest;
    assert (s + rest)[0..|s|] == s;
  }

  function Pow10(k: nat): (p: nat)
    ensures p > 0
  {
    if k == 0 then 1 else 10 * Pow10(k - 1)
  }

  lemma {:induction false} DecimalLength(n: nat, k: nat)
    requires k > 0 && n < Pow10(k)
    ensures |Decimal(n)| <= k
    decreases n
  {
    if n >= 10 {
      assert k > 1;
      DecimalLength(n / 10, k - 1);
    }
  }

  /** No 64-bit number needs more than the 20 digits the parser's length guard admits. */
  lemma DecimalFits(n: nat)
    requires n < TWO_64
    ensures 0 < |Decimal(n)| <= 20
    ensures IsPlain(Decimal(n))
  {
    assert Pow10(5) == 100000;
    assert Pow10(10) == 10000000000 by { assert Pow10(8) == 100000000; }
    assert Pow10(15) == 1000000000000000 by { assert Pow10(13) == 10000000000000; }
    assert Pow10(20) == 100000000000000000000 by { assert Pow10(18) == 1000000000000000000; }
    DecimalLength(n, 20);
    DecimalDigits(n);
  }

  // ---------- Big-endian 64-bit numbers ----------

  /** The low `k` octets of `n`, most significant first. */
  function BigEndian(n: nat, k: nat): (b: octets)
    ensures |b| == k
  {
    if k == 0 then [] else BigEndian(n / 256, k - 1) + [(n % 256) as char]
  }

  function Be64(n: nat): (b: octets)
    ensures |b| == 8
  {
    BigEndian(n, 8)
  }

  function BeValue(b: octets): nat {
    if b == [] then 0 else 256 * BeValue(b[..|b| - 1]) + b[|b| - 1] as int
  }

  function Pow256(k: nat): (p: nat)
    ensures p > 0
  {
    if k == 0 then 1 else 256 * Pow256(k - 1)
  }

  lemma {:induction false} BigEndianRoundTrip(n: nat, k: nat)
    requires n < Pow256(k)
    ensures BeValue(BigEndian(n, k)) == n
  {
    if k > 0 {
      BigEndianRoundTrip(n / 256, k - 1);
      var b := BigEndian(n, k);
      assert b[..|b| - 1] == BigEndian(n / 256, k - 1);
    }
  }

  lemma DivDiv(n: nat, p: nat)
    requires p > 0
    ensures 256 * p > 0 && n / 256 / p == n / (256 * p)
  {
    var q, r := n / 256 / p, n / 256 % p;
    var t := n - 256 * p * q;
    assert n / 256 == p * q + r;
    assert 256 * (p * q) == 256 * p * q;
    assert t == 256 * r + n % 256;
    assert 0 <= t < 256 * p;
    DivUnique(n, 256 * p, q, t);
  }

  lemma DivUnique(n: nat, d: nat, q: nat, t: nat)
    requires d > 0 && n == d * q + t && t < d
    ensures n / d == q
  {
    var e := n / d;
    assert d * (q - e) == n % d - t by {
      assert n == d * e + n % d;
      assert d * (q - e) == d * q - d * e;
    }
    if q > e {
      MulAtLeast(d, q - e);
    } else if e > q {
      assert d * (e - q) == t - n % d;
      MulAtLeast(d, e - q);
    }
  }

  lemma MulAtLeast(d: nat, k: nat)
    requires k > 0
    ensures d * k >= d
  {
    assert d * k == d * (k - 1) + d;
  }

  /** Octet `i` holds the bits that a right shift by `8 * (k - 1 - i)` brings down. */
  lemma {:induction false} BigEndianAt(n: nat, k: nat, i: nat)
    requires i < k
    ensures BigEndian(n, k)[i] as int == n / Pow256(k - 1 - i) % 256
    decreases k
  {
    if i < k - 1 {
      BigEndianAt(n / 256, k - 1, i);
      DivDiv(n, Pow256(k - 2 - i));
    }
  }

  lemma Pow256Values()
    ensures Pow256(0) == 1 && Pow256(1) == 0x100 && Pow256(2) == 0x1_0000 && Pow256(3) == 0x100_0000
    ensures Pow256(4) == 0x1_0000_0000 && Pow256(5) == 0x100_0000_0000
    ensures Pow256(6) == 0x1_0000_0000_0000 && Pow256(7) == 0x100_0000_0000_0000
    ensures Pow256(8) == TWO_64
  {
    assert Pow256(2) == 0x1_0000;
    assert Pow256(4) == 0x1_0000_0000;
    assert Pow256(6) == 0x1_0000_0000_0000;
  }

  /** The eight octets determine the 64-bit number. */
  lemma Be64RoundTrip(n: nat)
    requires n < TWO_64
    ensures BeValue(Be64(n)) == n
  {
    Pow256Values();
    BigEndianRoundTrip(n, 8);
  }

  method Uint64ToBe(val: nat, buf: array<byte>)
    requires val < TWO_64 && buf.Length == 8
    modifies buf
    ensures buf[..] == Be64(val)
  {
    buf[0] := (val / 0x100_0000_0000_0000 % 256) as char;
    buf[1] := (val / 0x1_0000_0000_0000 % 256) as char;
    buf[2] := (val / 0x100_0000_0000 % 256) as char;
    buf[3] := (val / 0x1_0000_0000 % 256) as char;
    buf[4] := (val / 0x100_0000 % 256) as char;
    buf[5] := (val / 0x1_0000 % 256) as char;
    buf[6] := (val / 0x100 % 256) as char;
    buf[7] := (val % 256) as char;
    Pow256Values();
    forall i | 0 <= i < 8 ensures buf[i] == Be64(val)[i] {
      BigEndianAt(val, 8, i);
    }
  }

  // ---------- Base64 (section 4 of RFC 4648) ----------

  function B64Char(n: nat): char
    requires n < 64
  {
    if n < 26 then ('A' as int + n) as char
    else if n < 52 then ('a' as int + n - 26) as char
    else if n < 62 then ('0' as int + n - 52) as char
    else if n == 62 then '+' else '/'
  }

  /** The alphabet position of `c`, searched from `n`. */
  function B64Position(c: char, n: nat): (r: Option<nat>)
    requires n <= 64
    ensures r.Some? ==> r.value < 64
    decreases 64 - n
  {
    if n == 64 then None else if B64Char(n) == c then Some(n) else B64Position(c, n + 1)
  }

  /** The decoder's table: the inverse of the alphabet, with padding decoding to zero bits. */
  function B64Value(c: char): (r: Option<nat>)
    ensures r.Some? ==> r.value < 64
  {
    if c == '=' then Some(0) else B64Position(c, 0)
  }

  function B64Group(x: byte, y: byte, z: byte): (s: string)
    ensures |s| == 4
  {
    var (a, b, c) := (x as int, y as int, z as int);
    [B64Char(a / 4), B64Char(a % 4 * 16 + b / 16), B64Char(b % 16 * 4 + c / 64), B64Char(c % 64)]
  }

  function B64Encode(b: octets): (s: string)
    ensures 3 * |s| <= 4 * (|b| + 2) && (b != [] ==> |s| >= 4)
  {
    if b == [] then ""
    else if |b| == 1 then var g := B64Group(b[0], '\0', '\0'); [g[0], g[1], '=', '=']
    else if |b| == 2 then var g := B64Group(b[0], b[1], '\0'); [g[0], g[1], g[2], '=']
    else B64Group(b[0], b[1], b[2]) + B64Encode(b[3..])
  }

  function B64Join(p: nat, q: nat, r: nat, t: nat): (b: octets)
    requires p < 64 && q < 64 && r < 64 && t < 64
    ensures |b| == 3
  {
    [(p * 4 + q / 16) as char, (q % 16 * 16 + r / 4) as char, (r % 4 * 64 + t) as char]
  }

  function B64Ungroup(c0: char, c1: char, c2: char, c3: char): (r: Option<octets>)
    ensures r.Some? ==> |r.value| == 3
  {
    match (B64Value(c0), B64Value(c1), B64Value(c2), B64Value(c3))
    case (Some(p), Some(q), Some(r), Some(t)) => Some(B64Join(p, q, r, t))
    case _ => None
  }

  function B64DecodeBlocks(s: string): (r: Option<octets>)
    ensures r.Some? ==> |s| % 4 == 0 && |r.value| == |s| / 4 * 3
  {
    if s == "" then Some([])
    else if |s| < 4 then None
    else
      match (B64Ungroup(s[0], s[1], s[2], s[3]), B64DecodeBlocks(s[4..]))
      case (Some(x), Some(y)) => Some(x + y)
      case _ => None
  }

  /** The block decoder skips blanks in front of the text. */
  function Blanks(s: string): (n: nat)
    ensures n <= |s|
    ensures forall k :: 0 <= k < n ==> s[k] in {' ', '\t'}
    ensures n < |s| ==> s[n] !in {' ', '\t'}
  {
    if s != "" && s[0] in {' ', '\t'} then 1 + Blanks(s[1..]) else 0
  }

  /** It drops blanks, line endings and hyphens behind the text, as long as more than three characters stay. */
  function Cut(s: string): (r: string)
    ensures r <= s && (s != "" ==> r != "")
  {
    if |s| > 3 && s[|s| - 1] in {' ', '\t', '\n', '\r', '-'} then Cut(s[..|s| - 1]) else s
  }

  function B64Trimmed(s: string): (t: string) {
    Cut(s[Blanks(s)..])
  }

  /** The correction for padding looks at the text as it was given. */
  function PadCount(s: string): nat {
    (if |s| > 0 && s[|s| - 1] == '=' then 1 else 0) + (if |s| > 1 && s[|s| - 2] == '=' then 1 else 0)
  }

  /** Block decoding of the trimmed text followed by the correction for padding. */
  function B64Decode(s: string): Option<octets> {
    match B64DecodeBlocks(B64Trimmed(s))
    case Some(d) =>
      NothingToPad(s);
      Some(d[..|d| - PadCount(s)])
    case None => None
  }

  /** Only blanks are trimmed to nothing, and blanks are no padding. */
  lemma NothingToPad(s: string)
    ensures B64Trimmed(s) == "" ==> PadCount(s) == 0
  {
  }

  lemma B64Bits(a: nat, b: nat, c: nat)
    requires a < 256 && b < 256 && c < 256
    ensures var p, q, r, t := a / 4, a % 4 * 16 + b / 16, b % 16 * 4 + c / 64, c % 64;
            && p < 64 && q < 64 && r < 64 && t < 64
            && p * 4 + q / 16 == a && q % 16 * 16 + r / 4 == b && r % 4 * 64 + t == c
            && (b == 0 && c == 0 ==> r == 0) && (c == 0 ==> t == 0)
  {
  }

  lemma {:induction false} B64CharPosition(k: nat, n: nat)
    requires n <= k < 64
    ensures B64Position(B64Char(k), n) == Some(k)
    decreases k - n
  {
    if n < k {
      assert B64Char(n) != B64Char(k);
      B64CharPosition(k, n + 1);
    }
  }

  lemma B64CharValue(n: nat)
    requires n < 64
    ensures B64Value(B64Char(n)) == Some(n)
    ensures B64Char(n) != '=' && IsPlain([B64Char(n)])
  {
    B64CharPosition(n, 0);
  }

  lemma B64JoinBits(x: byte, y: byte, z: byte)
    ensures var (a, b, c) := (x as int, y as int, z as int);
            B64Join(a / 4, a % 4 * 16 + b / 16, b % 16 * 4 + c / 64, c % 64) == [x, y, z]
  {
    B64Bits(x as int, y as int, z as int);
  }

  lemma B64GroupValues(x: byte, y: byte, z: byte)
    ensures var g := B64Group(x, y, z);
            && B64Ungroup(g[0], g[1], g[2], g[3]) == Some([x, y, z])
            && (y == z == '\0' ==> B64Ungroup(g[0], g[1], '=', '=') == Some([x, y, z]))
            && (z == '\0' ==> B64Ungroup(g[0], g[1], g[2], '=') == Some([x, y, z]))
  {
    var (a, b, c) := (x as int, y as int, z as int);
    var p, q, r, t := a / 4, a % 4 * 16 + b / 16, b % 16 * 4 + c / 64, c % 64;
    B64JoinBits(x, y, z);
    B64CharValue(p);
    B64CharValue(q);
    B64CharValue(r);
    B64CharValue(t);
    assert B64Group(x, y, z) == [B64Char(p), B64Char(q), B64Char(r), B64Char(t)];
    assert B64Value('=') == Some(0);
    assert z == '\0' ==> t == 0;
    assert y == z == '\0' ==> r == 0;
  }

  lemma B64GroupPlain(x: byte, y: byte, z: byte)
    ensures IsPlain(B64Group(x, y, z))
    ensures forall i :: 0 <= i < 4 ==> B64Group(x, y, z)[i] != '='
  {
    var (a, b, c) := (x as int, y as int, z as int);
    B64CharValue(a / 4);
    B64CharValue(a % 4 * 16 + b / 16);
    B64CharValue(b % 16 * 4 + c / 64);
    B64CharValue(c % 64);
  }

  function Padding(n: nat): (k: nat)
    ensures k <= 2
  {
    if n == 0 then 0 else if n < 3 then 3 - n else Padding(n - 3)
  }

  function Zeros(k: nat): octets {
    seq(k, _ => '\0')
  }

  lemma B64DecodeGroup(s: string, group: octets, tail: octets)
    requires |s| >= 4 && B64Ungroup(s[0], s[1], s[2], s[3]) == Some(group)
    requires B64DecodeBlocks(s[4..]) == Some(tail)
    ensures B64DecodeBlocks(s) == Some(group + tail)
  {
  }

  lemma SplitThree(b: octets, pad: octets)
    requires |b| >= 3
    ensures [b[0], b[1], b[2]] + (b[3..] + pad) == b + pad
  {
  }

  lemma PadShort(b: octets, y: byte)
    requires 0 < |b| < 3 && y == if |b| > 1 then b[1] else '\0'
    ensures [b[0], y, '\0'] + [] == b + Zeros(3 - |b|)
  {
    if |b| == 1 {
      assert b == [b[0]] && Zeros(2) == ['\0', '\0'];
    } else {
      assert b == [b[0], b[1]] && Zeros(1) == ['\0'];
    }
  }

  lemma B64Short(b: octets)
    requires |b| < 3
    ensures B64DecodeBlocks(B64Encode(b)) == Some(b + Zeros(Padding(|b|)))
  {
    hide B64Ungroup, B64Group, Zeros;
    if b == [] {
      assert b + Zeros(0) == [] by { NoZeros(); }
    } else {
      var s := B64Encode(b);
      var y := if |b| > 1 then b[1] else '\0';
      B64GroupValues(b[0], y, '\0');
      assert s[4..] == "";
      B64DecodeGroup(s, [b[0], y, '\0'], []);
      PadShort(b, y);
    }
  }

  lemma NoZeros()
    ensures Zeros(0) == []
  {
  }

  lemma {:induction false} B64Blocks(b: octets)
    ensures B64DecodeBlocks(B64Encode(b)) == Some(b + Zeros(Padding(|b|)))
  {
    if |b| < 3 {
      B64Short(b);
    } else {
      var s, tail := B64Encode(b), b[3..];
      B64Blocks(tail);
      B64GroupValues(b[0], b[1], b[2]);
      assert s[4..] == B64Encode(tail);
      SplitThree(b, Zeros(Padding(|b|)));
      B64DecodeGroup(s, [b[0], b[1], b[2]], tail + Zeros(Padding(|tail|)));
    }
  }

  lemma {:induction false} B64Pads(b: octets)
    ensures PadCount(B64Encode(b)) == Padding(|b|)
  {
    if b != [] {
      var s := B64Encode(b);
      B64GroupPlain(b[0], if |b| > 1 then b[1] else '\0', if |b| > 2 then b[2] else '\0');
      if |b| > 3 {
        var t := B64Encode(b[3..]);
        B64Pads(b[3..]);
        assert s[|s| - 1] == t[|t| - 1] && s[|s| - 2] == t[|t| - 2];
      }
    }
  }

  lemma {:induction false} B64Plain(b: octets)
    ensures IsPlain(B64Encode(b))
  {
    if b != [] {
      var g := B64Group(b[0], if |b| > 1 then b[1] else '\0', if |b| > 2 then b[2] else '\0');
      B64GroupPlain(b[0], if |b| > 1 then b[1] else '\0', if |b| > 2 then b[2] else '\0');
      if |b| >= 3 {
        B64Plain(b[3..]);
        PlainConcat(g, B64Encode(b[3..]));
      } else {
        assert forall c :: c in B64Encode(b) ==> c in g || c == '=';
      }
    }
  }

  lemma {:induction false} B64Ends(b: octets)
    requires b != []
    ensures var s := B64Encode(b); s[0] !in {' ', '\t'} && s[|s| - 1] !in {' ', '\t', '\n', '\r', '-'}
  {
    var s := B64Encode(b);
    if |b| > 3 {
      var t := B64Encode(b[3..]);
      B64Ends(b[3..]);
      assert s[|s| - 1] == t[|t| - 1];
    }
  }

  /** Encoded text is not trimmed. */
  lemma B64Untrimmed(b: octets)
    ensures B64Trimmed(B64Encode(b)) == B64Encode(b)
  {
    hide B64Encode;
    var s := B64Encode(b);
    if b != [] {
      B64Ends(b);
      assert Blanks(s) == 0 && s[0..] == s;
    } else {
      assert s == "" by { B64Nothing(); }
    }
  }

  lemma B64Nothing()
    ensures B64Encode([]) == ""
  {
  }

  /** Decoding inverts encoding for every octet string, whatever its length modulo 3. */
  lemma B64RoundTrip(b: octets)
    ensures B64Decode(B64Encode(b)) == Some(b)
    ensures IsPlain(B64Encode(b))
  {
    hide B64Encode, B64Trimmed;
    B64Untrimmed(b);
    B64Blocks(b);
    B64Pads(b);
    B64Plain(b);
    var d := b + Zeros(Padding(|b|));
    assert d[..|d| - Padding(|b|)] == b;
  }

  // ---------- Base64 into a buffer ----------

  /** The number of whole groups a decoder handles before the first bad one. */
  function ValidGroups(s: string): nat {
    if |s| < 4 || B64Ungroup(s[0], s[1], s[2], s[3]).None? then 0 else 1 + ValidGroups(s[4..])
  }

  /** The octets a block decoder writes, padding included, before it returns. */
  function B64Written(s: string): nat {
    var t := B64Trimmed(s);
    if |t| % 4 != 0 then 0 else 3 * ValidGroups(t)
  }

  lemma {:induction false} ValidWhenDecodable(s: string)
    requires B64DecodeBlocks(s).Some?
    ensures ValidGroups(s) == |s| / 4
  {
    hide B64Ungroup;
    if s != "" {
      ValidWhenDecodable(s[4..]);
    }
  }

  /** For text that decodes, the write is three octets for every four characters of the trimmed text. */
  lemma WrittenWhenDecodable(s: string)
    requires B64Decode(s).Some?
    ensures B64Written(s) == |B64Trimmed(s)| / 4 * 3
  {
    hide B64Trimmed;
    ValidWhenDecodable(B64Trimmed(s));
  }

  /** A blank in front of a text changes nothing about what is written. */
  lemma BlankInFront(s: string)
    ensures B64Written([' '] + s) == B64Written(s)
  {
    hide Cut, ValidGroups;
    assert ([' '] + s)[1..] == s;
    assert ([' '] + s)[1 + Blanks(s)..] == s[Blanks(s)..];
  }

  lemma {:induction false} B64Length(b: octets)
    ensures |B64Encode(b)| == (|b| + 2) / 3 * 4
  {
    hide B64Group;
    if |b| >= 3 {
      B64Length(b[3..]);
      assert (|b| + 2) / 3 == (|b[3..]| + 2) / 3 + 1;
    }
  }

  /** Decoding printed octets writes their number rounded up to a whole group. */
  lemma WrittenEncoded(b: octets)
    ensures B64Written(B64Encode(b)) == (|b| + 2) / 3 * 3
  {
    hide B64Encode, B64Decode, B64Trimmed;
    B64RoundTrip(b);
    B64Untrimmed(b);
    WrittenWhenDecodable(B64Encode(b));
    B64Length(b);
  }

  lemma DecodeStep(s: string, i: nat)
    requires 4 * i + 4 <= |s|
    ensures var (rest, g) := (s[4 * i..], B64Ungroup(s[4 * i], s[4 * i + 1], s[4 * i + 2], s[4 * i + 3]));
            if g.None? then B64DecodeBlocks(rest).None? && ValidGroups(rest) == 0
            else
              && ValidGroups(rest) == 1 + ValidGroups(s[4 * (i + 1)..])
              && B64DecodeBlocks(rest) == Behind(g.value, B64DecodeBlocks(s[4 * (i + 1)..]))
  {
    hide B64Ungroup;
    assert s[4 * i..][4..] == s[4 * (i + 1)..];
  }

  /** Decoded octets in front of whatever the rest decodes to. */
  function Behind(front: octets, rest: Option<octets>): Option<octets> {
    match rest case Some(t) => Some(front + t) case None => None
  }

  lemma BehindTwice(a: octets, b: octets, rest: Option<octets>)
    ensures Behind(a, Behind(b, rest)) == Behind(a + b, rest)
  {
    if rest.Some? {
      assert a + (b + rest.value) == (a + b) + rest.value;
    }
  }

  lemma BehindNothing(rest: Option<octets>)
    ensures Behind([], rest) == rest
  {
    if rest.Some? {
      assert [] + rest.value == rest.value;
    }
  }

  /** Narrows the text to what the block decoder looks at. */
  method TrimBase64(s: string) returns (t: string)
    ensures t == B64Trimmed(s)
  {
    var lo := 0;
    assert s[0..] == s;
    while lo < |s| && s[lo] in {' ', '\t'}
      invariant lo <= |s| && Blanks(s) == lo + Blanks(s[lo..])
    {
      assert s[lo..][1..] == s[lo + 1..];
      lo := lo + 1;
    }
    assert Blanks(s[lo..]) == 0;
    var rest, n := s[lo..], |s| - lo;
    assert rest[..n] == rest;
    while n > 3 && rest[n - 1] in {' ', '\t', '\n', '\r', '-'}
      invariant n <= |rest| && Cut(rest[..n]) == Cut(rest)
    {
      assert rest[..n][..n - 1] == rest[..n - 1];
      n := n - 1;
    }
    return rest[..n];
  }

  /**
   * Decodes group by group into a destination that the source never measures: `overrun` says that
   * a write would leave it, and then nothing more is claimed.
   */
  method B64DecodeInto(s: string, out: array<byte>) returns (ok: bool, len: nat, overrun: bool)
    modifies out
    ensures overrun <==> B64Written(s) > out.Length
    ensures !overrun ==> (ok <==> B64Decode(s).Some?)
    ensures !overrun && ok ==> len == |B64Decode(s).value| <= out.Length && out[..len] == B64Decode(s).value
  {
    hide B64Ungroup, B64DecodeBlocks, ValidGroups, Behind, B64Trimmed;
    ok, len, overrun := false, 0, false;
    var t := TrimBase64(s);
    if |t| % 4 != 0 {
      return;
    }
    var n := |t| / 4;
    var i := 0;
    assert t[0..] == t;
    NothingToPad(s);
    BehindNothing(B64DecodeBlocks(t));
    assert out[..0] == [];
    while i < n
      invariant i <= n && 3 * i <= out.Length
      invariant ValidGroups(t) == i + ValidGroups(t[4 * i..])
      invariant B64DecodeBlocks(t) == Behind(out[..3 * i], B64DecodeBlocks(t[4 * i..]))
    {
      DecodeStep(t, i);
      var g := B64Ungroup(t[4 * i], t[4 * i + 1], t[4 * i + 2], t[4 * i + 3]);
      if g.None? {
        BehindNone(out[..3 * i]);
        return;
      }
      if 3 * i + 3 > out.Length {
        overrun := true;
        return;
      }
      ghost var front := out[..3 * i];
      BehindTwice(front, g.value, B64DecodeBlocks(t[4 * (i + 1)..]));
      out[3 * i] := g.value[0];
      out[3 * i + 1] := g.value[1];
      out[3 * i + 2] := g.value[2];
      i := i + 1;
      assert out[..3 * i] == front + g.value;
    }
    assert t[4 * n..] == "";
    EmptyBlocks();
    BehindEmpty(out[..3 * n]);
    ok := true;
    len := 3 * n - PadCount(s);
    assert out[..3 * n][..len] == out[..len];
  }

  lemma BehindNone(front: octets)
    ensures Behind(front, None) == None
  {
  }

  lemma EmptyBlocks()
    ensures B64DecodeBlocks("") == Some([]) && ValidGroups("") == 0
  {
  }

  lemma BehindEmpty(front: octets)
    ensures Behind(front, Some([])) == Some(front)
  {
    assert front + [] == front;
  }
}

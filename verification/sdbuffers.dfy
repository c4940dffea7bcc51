/** The pointer loops that read parameters and strip elements, over buffers. */
module SdBuffers {
  import opened Wrappers
  import opened Octets
  import opened SdText
  import opened Crypto
  import opened SdRecords

  /** Advances past a quoted value that starts at `v`. */
  method SkipQuoted(s: string, v: nat) returns (vend: nat)
    requires v <= |s|
    ensures vend == QuotedEnd(s, v)
  {
    vend := v;
    while vend < |s| && s[vend] != '"'
      invariant v <= vend <= |s|
      invariant QuotedEnd(s, vend) == QuotedEnd(s, v)
      decreases |s| - vend
    {
      if s[vend] == '\\' && vend + 1 < |s| {
        vend := vend + 1;
      }
      vend := vend + 1;
    }
  }

  method ReadParam(body: string, key: string) returns (value: Option<string>)
    ensures value == GetParam(body, key, 0)
  {
    var p := 0;
    while p + |key| + 2 <= |body|
      invariant GetParam(body, key, p) == GetParam(body, key, 0)
      decreases |body| + 1 - p
    {
      var atStart := p == 0;
      var afterSpace := p > 0 && body[p - 1] == ' ';
      if (atStart || afterSpace) && At(body, p, key) && body[p + |key|] == '=' && body[p + |key| + 1] == '"' {
        var v := p + |key| + 2;
        var vend := SkipQuoted(body, v);
        if vend >= |body| {
          return None;
        }
        return Some(body[v..vend]);
      }
      p := p + 1;
    }
    return None;
  }

  method FindMark(s: string, mark: string) returns (start: Option<nat>)
    ensures start == Find(s, mark, 0)
  {
    var i := 0;
    while i + |mark| <= |s|
      invariant Find(s, mark, i) == Find(s, mark, 0)
      decreases |s| + 1 - i
    {
      if At(s, i, mark) {
        return Some(i);
      }
      i := i + 1;
    }
    return None;
  }

  /**
   * The scan inside the line stripper.  On an element that never closes it ends at the end of the
   * line, behind no closing bracket, or, inside an open quote, one past it.
   */
  method ScanLine(line: string, p0: nat) returns (p: nat)
    requires p0 <= |line|
    ensures match ScanElement(line, p0)
            case Some(end) => p == end && !OpenQuote(line, p0)
            case None =>
              if OpenQuote(line, p0) then p == |line| + 1 else p == |line| && (p0 < p ==> line[p - 1] != ']')
  {
    p := p0;
    while p < |line|
      invariant p0 <= p <= |line| + 1
      invariant p <= |line| ==> ScanElement(line, p) == ScanElement(line, p0)
      invariant p <= |line| ==> OpenQuote(line, p) == OpenQuote(line, p0)
      invariant p == |line| + 1 ==> ScanElement(line, p0) == None && OpenQuote(line, p0)
      invariant p0 < p <= |line| ==> line[p - 1] != ']'
      decreases |line| + 1 - p
    {
      if line[p] == '"' {
        p := p + 1;
        while p < |line| && line[p] != '"'
          invariant p0 < p <= |line|
          invariant ScanValue(line, p) == ScanElement(line, p0) && OpenValue(line, p) == OpenQuote(line, p0)
          decreases |line| - p
        {
          if line[p] == '\\' && p + 1 < |line| {
            p := p + 1;
          }
          p := p + 1;
        }
      }
      if p < |line| && line[p] == ']' {
        return p + 1;
      }
      p := p + 1;
    }
  }

  /** Copies text into a buffer. */
  method CopyIn(src: string, dst: array<char>, at: nat)
    requires at + |src| <= dst.Length
    modifies dst
    ensures dst[..at] == old(dst[..at]) && dst[at..at + |src|] == src
    ensures dst[at + |src|..] == old(dst[at + |src|..])
  {
    for k := 0 to |src|
      invariant dst[..at] == old(dst[..at]) && dst[at..at + k] == src[..k]
      invariant dst[at + |src|..] == old(dst[at + |src|..])
    {
      dst[at + k] := src[k];
      assert dst[at..at + k + 1] == dst[at..at + k] + [src[k]];
    }
    assert src[..|src|] == src;
  }

  method ReadNumber(body: string, key: string) returns (ok: bool, n: nat)
    ensures (ok, n) == NumberField(body, key)
  {
    var v := ReadParam(body, key);
    if v.None? || v.value == "" || |v.value| > 20 {
      return false, 0;
    }
    var (value, used) := Strtoull(v.value);
    return used == |v.value| || v.value[used] == '\0', value;
  }

  /** Parses the parameters of a chain element, decoding its signature into a field of fixed size. */
  method ParseParams(body: string, signature: array<byte>) returns (r: Parse)
    requires signature.Length == SIG_MAX_LEN
    modifies signature
    ensures r == ParseBody(body)
  {
    hide GetParam, Strtoull, HexDecode, B64Decode, B64Written, AlgFromHexLen;
    var t := ReadParam(body, "t");
    var kind := match t
      case Some(v) =>
        if |v| != 1 || v[0] == '\0' then MsgType
        else if v[0] == 'I' then InitType
        else if v[0] == 'S' then SigType
        else if v[0] == 'C' then ContinueType
        else OtherType(v[0])
      case None => MsgType;
    var numberOk, number := ReadNumber(body, "q");
    if !numberOk {
      return ParseRefused;
    }
    var h := ReadParam(body, "h");
    if h.None? || AlgFromHexLen(|h.value|).None? {
      return ParseRefused;
    }
    var hash := HexDecode(h.value);
    if hash.None? {
      return ParseRefused;
    }
    var f := ReadParam(body, "f");
    var fp := if f.Some? && |f.value| == 2 * HASH_LEN then HexDecode(f.value) else None;
    var _, from := ReadNumber(body, "qf");
    var _, to := ReadNumber(body, "qt");
    var sig: Option<octets> := None;
    var s := ReadParam(body, "s");
    if s.Some? {
      if |s.value| >= B64_SIG_BUF {
        return ParseRefused;
      }
      var ok, len, overrun := B64DecodeInto(s.value, signature);
      if overrun {
        return ParseOverrun;
      }
      if !ok {
        return ParseRefused;
      }
      sig := Some(signature[..len]);
    }
    return Parsed(Record(kind, number, hash.value, fp, from, to, sig));
  }

  /**
   * Finds, parses and removes the first chain element of a line.  `behind` is the character that
   * follows the line in memory: the parse of an element that never closes looks at it.
   */
  method StripSdFromLine(line: string, behind: char, msgBuf: array<char>) returns (len: int, parse: Parse)
    modifies msgBuf
    ensures match StripLineBefore(line, behind, msgBuf.Length)
            case NotStripped => len == -1 && parse == ParseRefused
            case StripOverrun => len == -1 && parse == ParseOverrun
            case Stripped(msg, r) =>
              && len == |msg| && msgBuf[..len] == msg && msgBuf[len] == '\0' && parse == Parsed(r)
  {
    hide ParseBody, Find, ScanElement, At, ParseSd, OpenQuote;
    var found := FindMark(line, CHAIN_MARK);
    if found.None? {
      return -1, ParseRefused;
    }
    var start := found.value;
    MarkFits(line, CHAIN_MARK);
    var p := ScanLine(line, start + |CHAIN_MARK|);
    var parsed := ParseElement((line + [behind])[start..p]);
    PieceBefore(line, behind, msgBuf.Length, start, p);
    if !parsed.Parsed? {
      return -1, parsed;
    }
    var before, after := start, |line| - p;
    var total := if after < 0 then (before + after) % TWO_64 else before + after;
    if total >= msgBuf.Length {
      return -1, ParseRefused;
    }
    if after < 0 {
      return -1, ParseOverrun;
    }
    CopyAround(line, start, p, msgBuf);
    return total, parsed;
  }

  /** Copies the line without `line[start..p]` and terminates it. */
  method CopyAround(line: string, start: nat, p: nat, msgBuf: array<char>)
    requires start <= p <= |line| && |line| - (p - start) < msgBuf.Length
    modifies msgBuf
    ensures var total := |line| - (p - start);
            msgBuf[..total] == line[..start] + line[p..] && msgBuf[total] == '\0'
  {
    var before, after := start, |line| - p;
    CopyIn(line[..start], msgBuf, 0);
    assert msgBuf[0..before] == msgBuf[..before];
    CopyIn(line[p..], msgBuf, before);
    assert msgBuf[..before + after] == msgBuf[..before] + msgBuf[before..before + after];
    msgBuf[before + after] := '\0';
  }

  /** What the scanned piece parses to decides the strip. */
  lemma PieceBefore(line: string, behind: char, cap: nat, start: nat, p: nat)
    requires Find(line, CHAIN_MARK, 0) == Some(start) && start + |CHAIN_MARK| <= |line|
    requires var p0 := start + |CHAIN_MARK|;
             match ScanElement(line, p0)
             case Some(end) => p == end && !OpenQuote(line, p0)
             case None =>
               if OpenQuote(line, p0) then p == |line| + 1 else p == |line| && (p0 < p ==> line[p - 1] != ']')
    ensures start <= p <= |line| + 1
    ensures StripLineBefore(line, behind, cap) ==
            match ParseSd((line + [behind])[start..p])
            case ParseRefused => NotStripped
            case ParseOverrun => StripOverrun
            case Parsed(r) =>
              if p <= |line| then
                if |line| - (p - start) < cap then Stripped(line[..start] + line[p..], r) else NotStripped
              else if (start - 1) % TWO_64 >= cap then NotStripped
              else StripOverrun
  {
    hide ParseSd, Find, ScanElement, At, OpenQuote, StripLine;
    var p0 := start + |CHAIN_MARK|;
    SliceBefore(line, behind, start, p);
    if ScanElement(line, p0).Some? {
      StripFound(line, cap, start, p);
    } else {
      Unclosed(line, behind, start, p);
      StripUnclosed(line, cap, start);
    }
  }

  lemma SliceBefore(line: string, behind: char, start: nat, p: nat)
    requires start <= |line| && start <= p <= |line| + 1
    ensures (line + [behind])[start..p] == if p <= |line| then line[start..p] else line[start..] + [behind]
  {
  }

  lemma StripUnclosed(line: string, cap: nat, start: nat)
    requires Find(line, CHAIN_MARK, 0) == Some(start) && start + |CHAIN_MARK| <= |line|
    requires ScanElement(line, start + |CHAIN_MARK|).None?
    ensures StripLine(line, cap) == NotStripped
  {
    hide Find, ScanElement;
  }

  /** What the scan leaves of an element that never closes does not parse, unless a bracket stands behind it. */
  lemma Unclosed(line: string, behind: char, start: nat, p: nat)
    requires start + |CHAIN_MARK| <= |line| <= p <= |line| + 1
    requires start + |CHAIN_MARK| < p == |line| ==> line[p - 1] != ']'
    ensures p == |line| || behind != ']' ==> ParseSd((line + [behind])[start..p]) == ParseRefused
  {
    hide ParseBody, At;
    var sd := (line + [behind])[start..p];
    assert sd[|sd| - 1] == if p == |line| then line[p - 1] else behind;
  }

  method ParseElement(sd: string) returns (r: Parse)
    ensures r == ParseSd(sd)
  {
    hide ParseBody, At;
    var n := |CHAIN_MARK|;
    if |sd| < n + 1 || !At(sd, 0, CHAIN_MARK) || sd[|sd| - 1] != ']' {
      return ParseRefused;
    }
    var signature := new byte[SIG_MAX_LEN];
    r := ParseParams(sd[n..|sd| - 1], signature);
  }

  lemma MarkFits(s: string, mark: string)
    ensures var r := Find(s, mark, 0); r.Some? ==> r.value + |mark| <= |s|
  {
  }

  /** Moves `src[from..from + count]` to `dst[to..]`, front first; safe in place when it moves down. */
  method MoveDown(src: array<char>, from: nat, dst: array<char>, to: nat, count: nat)
    requires from + count <= src.Length && to + count <= dst.Length
    requires src == dst ==> to <= from
    modifies dst
    ensures dst[to..to + count] == old(src[from..from + count])
    ensures dst[..to] == old(dst[..to])
  {
    for k := 0 to count
      invariant dst[to..to + k] == old(src[from..from + k])
      invariant dst[..to] == old(dst[..to])
      invariant forall m :: from + k <= m < from + count ==> src[m] == old(src[m])
    {
      dst[to + k] := src[from + k];
      assert dst[to..to + k + 1] == dst[to..to + k] + [dst[to + k]];
    }
  }

  /**
   * Removes the first certificate element of `src[..n]`, writing the rest to `msgBuf`, which may be
   * the same buffer, and the certificate to `der`.  Both ways give the text the specification names,
   * and a refusal leaves the buffer as it was.  The size of `der` is not measured before decoding:
   * `overrun` says that the source would write past it.
   */
  method ExtractAndStripCert(src: array<char>, n: nat, msgBuf: array<char>, der: array<byte>)
    returns (rc: int, len: nat, derLen: nat, overrun: bool)
    requires n <= src.Length
    modifies msgBuf, der
    ensures match ExtractCert(old(src[..n]), msgBuf.Length, der.Length)
            case CertOverrun => overrun
            case BadCert => !overrun && rc == -1 && msgBuf[..] == old(msgBuf[..])
            case NoCert =>
              !overrun && rc == 0 && len == n < msgBuf.Length && msgBuf[..n] == old(src[..n]) && derLen == 0
            case Cert(d, rest) =>
              && !overrun && rc == 1 && len == |rest| < msgBuf.Length && msgBuf[..len] == rest
              && derLen == |d| <= der.Length && der[..derLen] == d
    ensures !overrun && rc >= 0 ==> len < msgBuf.Length && msgBuf[len] == '\0'
  {
    hide Find, QuotedEnd, B64Decode, B64Written, At;
    rc, len, derLen, overrun := -1, 0, 0, false;
    var s := src[..n];
    var found := FindMark(s, CERT_MARK);
    if found.None? {
      if n >= msgBuf.Length {
        return;
      }
      if src != msgBuf {
        MoveDown(src, 0, msgBuf, 0, n);
        assert msgBuf[0..0 + n] == msgBuf[..n];
      }
      msgBuf[n] := '\0';
      return 0, n, 0, false;
    }
    var start := found.value;
    MarkFits(s, CERT_MARK);
    var slot := FindSlot(s, start);
    if slot.None? {
      return;
    }
    var (vstart, vend) := slot.value;
    var ok, decoded, past := B64DecodeInto(s[vstart..vend], der);
    assert src[..n] == s;
    if past {
      return -1, 0, 0, true;
    }
    if !ok || n - (vend + 2 - start) >= msgBuf.Length {
      return;
    }
    len := CutOut(src, n, start, vend + 2, msgBuf);
    return 1, len, decoded, false;
  }

  method FindSlot(s: string, start: nat) returns (slot: Option<(nat, nat)>)
    requires start + |CERT_MARK| <= |s|
    ensures slot == CertSlot(s, start)
  {
    hide QuotedEnd, At;
    var p := start + |CERT_MARK|;
    if p + |CERT_KEY| >= |s| || !At(s, p, CERT_KEY) {
      return None;
    }
    var vstart := p + |CERT_KEY|;
    var vend := SkipQuoted(s, vstart);
    if vend >= |s| || vend + 1 >= |s| || s[vend + 1] != ']' {
      return None;
    }
    return Some((vstart, vend));
  }

  /** Copies `src[..n]` without `src[start..end]`; in place only the tail moves. */
  method CutOut(src: array<char>, n: nat, start: nat, end: nat, msgBuf: array<char>) returns (total: nat)
    requires start <= end <= n <= src.Length && n - (end - start) < msgBuf.Length
    modifies msgBuf
    ensures total == n - (end - start)
    ensures msgBuf[..total] == old(src[..n])[..start] + old(src[..n])[end..] && msgBuf[total] == '\0'
  {
    ghost var s := src[..n];
    var before, after := start, n - end;
    total := before + after;
    if msgBuf != src {
      MoveDown(src, 0, msgBuf, 0, before);
      assert msgBuf[0..0 + before] == msgBuf[..before];
    }
    assert msgBuf[..before] == s[..start] && src[end..end + after] == s[end..];
    MoveDown(src, end, msgBuf, before, after);
    assert msgBuf[..total] == msgBuf[..before] + msgBuf[before..before + after];
    msgBuf[total] := '\0';
  }
}
